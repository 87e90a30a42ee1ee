/** What FileReader.read computes from a file path and the file's split lines, written as
    functions that follow the reader step by step, and what follows from them. */
module InstanceFormat {
  import opened Wrappers
  import opened Errors
  import opened Tokens
  import opened Planes
  import opened SepTables
  import opened Airlands

  // ---------------------------------------------------------------- the instance id

  /** file_path.split('.')[0]: everything before the first dot. */
  function BeforeFirstDot(s: string): (r: string)
    ensures r <= s
    ensures '.' !in r
    ensures |r| < |s| ==> s[|r|] == '.'
  {
    if s == [] || s[0] == '.' then [] else [s[0]] + BeforeFirstDot(s[1..])
  }

  predicate IsDigit(c: char) {
    '0' <= c <= '9'
  }

  /** int(file_path.split('.')[0][-1]): the digit just before the first dot. */
  function AirlandId(path: string): (r: Result<int, Error>)
    ensures r.Ok? <==> BeforeFirstDot(path) != [] && IsDigit(path[|BeforeFirstDot(path)| - 1])
    ensures r.Ok? ==>
      0 <= r.value <= 9 && path[|BeforeFirstDot(path)| - 1] == ('0' as int + r.value) as char
    ensures r == Err(IndexError) <==> BeforeFirstDot(path) == []
    ensures r.Err? ==> r.error == IndexError || r.error == ValueError
  {
    var stem := BeforeFirstDot(path);
    if stem == [] then Err(IndexError) else DigitValue(stem[|stem| - 1])
  }

  /** int(c) for a one-character string. */
  function DigitValue(c: char): (r: Result<int, Error>)
    ensures r.Ok? <==> IsDigit(c)
    ensures r.Ok? ==> 0 <= r.value <= 9 && c == ('0' as int + r.value) as char
    ensures r.Err? ==> r.error == ValueError
  {
    if IsDigit(c) then Ok(c as int - '0' as int) else Err(ValueError)
  }

  lemma {:induction false} BeforeFirstDotAppend(p: string, q: string)
    requires '.' !in p
    ensures BeforeFirstDot(p + q) == p + BeforeFirstDot(q)
  {
    if p != [] {
      assert (p + q)[0] == p[0] && (p + q)[1..] == p[1..] + q;
      BeforeFirstDotAppend(p[1..], q);
      assert [p[0]] + p[1..] == p;
    } else {
      assert p + q == q;
    }
  }

  /** Only the digit before the dot matters: any dot-free text before it is ignored, so
      "airland10.txt" and "airland0.txt" get the same id. */
  lemma AirlandIdIgnoresLeadingText(p: string, q: string)
    requires '.' !in p
    requires BeforeFirstDot(q) != []
    ensures AirlandId(p + q) == AirlandId(q)
  {
    BeforeFirstDotAppend(p, q);
    var s := BeforeFirstDot(q);
    assert (p + s)[|p + s| - 1] == s[|s| - 1];
  }

  /** The path the solver driver reads (pulp_solver.py:5). */
  lemma AirlandIdOfDatasetPath()
    ensures AirlandId("datasets/airland1.txt") == Ok(1)
  {
    assert "datasets/airland1.txt" == "datasets/airland" + "1.txt";
    AirlandIdIgnoresLeadingText("datasets/airland", "1.txt");
  }

  /** Only the last digit is kept: airland10.txt gets id 0. */
  lemma AirlandIdKeepsLastDigit()
    ensures AirlandId("airland10.txt") == Ok(0)
  {
    assert "airland10.txt" == "airland1" + "0.txt";
    AirlandIdIgnoresLeadingText("airland1", "0.txt");
  }

  /** A path whose stem does not end in a digit fails int() with a ValueError. */
  lemma AirlandIdNoDigit()
    ensures AirlandId("airland.txt") == Err(ValueError)
  {
    assert "airland.txt" == "airlan" + "d.txt";
    BeforeFirstDotAppend("airlan", "d.txt");
  }

  /** A path starting with "./" has an empty stem: indexing it with [-1] is an IndexError. */
  lemma AirlandIdLeadingDot()
    ensures AirlandId("./datasets/airland1.txt") == Err(IndexError)
  {
  }

  // ---------------------------------------------------------------- the header line

  /** n_planes, freeze_time = map(int, line): unpacking pulls the tokens one by one. */
  function ParseHeader(line: Line): (r: Result<(int, int), Error>)
    ensures r.Ok? <==> |line| == 2 && line[0].IntLit? && line[1].IntLit?
    ensures r.Ok? ==> r.value == (line[0].v, line[1].v)
    ensures r.Err? ==> r.error == ValueError
  {
    if |line| == 0 || !line[0].IntLit? then Err(ValueError)     // not enough values / bad int
    else if |line| == 1 || !line[1].IntLit? then Err(ValueError)
    else if |line| > 2 then Err(ValueError)                       // too many values to unpack
    else Ok((line[0].v, line[1].v))
  }

  // ---------------------------------------------------------------- a profile line

  /** int(float_value): Python truncates toward zero. */
  function Trunc(x: real): (r: int)
    ensures x >= 0.0 ==> r as real <= x < r as real + 1.0
    ensures x < 0.0 ==> r as real - 1.0 < x <= r as real
  {
    if x >= 0.0 then x.Floor else -((-x).Floor)
  }

  lemma TruncOfInt(v: int)
    ensures Trunc(v as real) == v
  {
  }

  /** The first four tokens pass int(), the rest pass float(). */
  predicate WellTyped(line: Line) {
    forall i :: 0 <= i < |line| ==> if i < 4 then line[i].IntLit? else IsNumber(line[i])
  }

  function Numbers(line: Line): (xs: seq<real>)
    requires WellTyped(line)
    ensures |xs| == |line|
  {
    seq(|line|, i requires 0 <= i < |line| => Number(line[i]))
  }

  function TruncAll(xs: seq<real>): (vs: seq<int>)
    ensures |vs| == |xs|
  {
    seq(|xs|, i requires 0 <= i < |xs| => Trunc(xs[i]))
  }

  /** Plane(plane_id, airland.id, *vals): the last of the nine fields has a default. */
  function MakePlane(planeId: int, airlandId: int, vals: seq<int>): Result<Plane, Error> {
    if |vals| == 6 then
      Ok(Plane(planeId, airlandId, vals[0], vals[1], vals[2], vals[3], vals[4], vals[5], 0))
    else if |vals| == 7 then
      Ok(Plane(planeId, airlandId, vals[0], vals[1], vals[2], vals[3], vals[4], vals[5], vals[6]))
    else
      Err(TypeError)
  }

  /** __read_plane_profile on one split line: convert, scale the last two values by 100,
      truncate, and build the plane. */
  function ParseProfile(line: Line, planeId: int, airlandId: int): (r: Result<Plane, Error>)
    ensures r.Ok? <==> WellTyped(line) && (|line| == 6 || |line| == 7)
    ensures !WellTyped(line) ==> r == Err(ValueError)
    ensures WellTyped(line) && |line| < 2 ==> r == Err(IndexError)
    ensures WellTyped(line) && 2 <= |line| && |line| != 6 && |line| != 7 ==> r == Err(TypeError)
    ensures r.Ok? ==> var p := r.value;
      && p.id == planeId && p.airlandId == airlandId
      && p.A == line[0].v && p.E == line[1].v && p.T == line[2].v && p.L == line[3].v
      && p.PCa == Trunc(Number(line[5]) * 100.0)
    ensures r.Ok? && |line| == 6 ==>
      r.value.PCb == Trunc(Number(line[4]) * 100.0) && r.value.landingTime == 0
    ensures r.Ok? && |line| == 7 ==>
      r.value.PCb == Trunc(Number(line[4])) && r.value.landingTime == Trunc(Number(line[6]) * 100.0)
  {
    if !WellTyped(line) then Err(ValueError)
    else if |line| < 2 then Err(IndexError)
    else
      var xs := Numbers(line);
      var last := |xs| - 1;
      var scaled := xs[last := xs[last] * 100.0][last - 1 := xs[last - 1] * 100.0];
      var r := MakePlane(planeId, airlandId, TruncAll(scaled));
      assert r.Ok? ==> forall i :: 0 <= i < 4 ==> TruncAll(scaled)[i] == line[i].v by {
        if r.Ok? {
          forall i | 0 <= i < 4 ensures TruncAll(scaled)[i] == line[i].v {
            TruncOfInt(line[i].v);
          }
        }
      }
      r
  }

  // ---------------------------------------------------------------- a separation run

  /** The inner for loop of __read_sep_times: value k of a line goes to column col + k. */
  function RegisterRow(m: SepTable, row: int, col: int, vals: seq<int>): SepTable
    decreases |vals|
  {
    if vals == [] then m
    else Register(RegisterRow(m, row, col, vals[..|vals| - 1]), row, col + |vals| - 1, vals[|vals| - 1])
  }

  /** The end of {a, b} that is not `row` (or `row` itself for the self-pair). */
  function OtherEnd(row: int, a: int, b: int): int {
    if a == row then b else a
  }

  /** After registering a row, the pairs {row, c} for the columns c written hold their
      value, and every other pair keeps the lookup it had. */
  lemma {:induction false} LookupAfterRegisterRow(m: SepTable, row: int, col: int, vals: seq<int>, a: int, b: int)
    ensures Lookup(RegisterRow(m, row, col, vals), a, b)
      == if (a == row || b == row) && col <= OtherEnd(row, a, b) < col + |vals|
         then Some(vals[OtherEnd(row, a, b) - col])
         else Lookup(m, a, b)
    decreases |vals|
  {
    if vals != [] {
      var k := |vals| - 1;
      LookupAfterRegisterRow(m, row, col, vals[..k], a, b);
      LookupAfterRegister(RegisterRow(m, row, col, vals[..k]), row, col + k, vals[k], a, b);
      KeySameEdge(a, b, row, col + k);
    }
  }

  lemma {:induction false} RegisterRowAppend(m: SepTable, row: int, col: int, a: seq<int>, b: seq<int>)
    ensures RegisterRow(RegisterRow(m, row, col, a), row, col + |a|, b) == RegisterRow(m, row, col, a + b)
    decreases |b|
  {
    if b == [] {
      assert a + b == a;
    } else {
      var k := |b| - 1;
      RegisterRowAppend(m, row, col, a, b[..k]);
      assert (a + b)[..|a + b| - 1] == a + b[..k];
      assert (a + b)[|a + b| - 1] == b[k];
    }
  }

  /** Registering one more value extends the row by one column. */
  lemma RegisterRowSnoc(m: SepTable, row: int, col: int, vals: seq<int>, v: int)
    ensures RegisterRow(m, row, col, vals + [v]) == Register(RegisterRow(m, row, col, vals), row, col + |vals|, v)
  {
    assert (vals + [v])[..|vals|] == vals;
  }

  /** The edges {row, c} for the columns col .. col+len-1. */
  function ColumnKeys(row: int, col: int, len: nat): set<Edge>
    decreases len
  {
    if len == 0 then {} else ColumnKeys(row, col, len - 1) + {Key(row, col + len - 1)}
  }

  lemma {:induction false} InColumnKeys(row: int, col: int, len: nat, c: int)
    requires col <= c < col + len
    ensures Key(row, c) in ColumnKeys(row, col, len)
    decreases len
  {
    if c < col + len - 1 {
      InColumnKeys(row, col, len - 1, c);
    }
  }

  lemma {:induction false} ColumnKeysMember(row: int, col: int, len: nat, e: Edge)
    requires e in ColumnKeys(row, col, len)
    ensures exists c :: col <= c < col + len && e == Key(row, c)
    decreases len
  {
    if e != Key(row, col + len - 1) {
      ColumnKeysMember(row, col, len - 1, e);
    }
  }

  /** Registering a row adds exactly the edges of its columns, and no other. */
  lemma {:induction false} RegisterRowKeys(m: SepTable, row: int, col: int, vals: seq<int>)
    ensures RegisterRow(m, row, col, vals).Keys == m.Keys + ColumnKeys(row, col, |vals|)
    decreases |vals|
  {
    if vals != [] {
      var k := |vals| - 1;
      var m0 := RegisterRow(m, row, col, vals[..k]);
      var m1 := Register(m0, row, col + k, vals[k]);
      RegisterRowKeys(m, row, col, vals[..k]);
      RegisterAddsOneEdge(m0, row, col + k, vals[k]);
      assert m1.Keys == m.Keys + ColumnKeys(row, col, k + 1);
      assert RegisterRow(m, row, col, vals) == m1;
    }
  }

  /** The while loop of __read_sep_times, from the point where the values `vals` have been
      read (so n == |vals|) and the cursor is at `pos`: the cursor where it stops and all the
      values of the row, in file order. Registering them is RegisterRow's part. */
  function SepLoop(lines: seq<Line>, pos: nat, nPlanes: int, vals: seq<int>)
    : (r: Result<(nat, seq<int>), Error>)
    requires pos <= |lines|
    ensures r.Ok? ==> pos <= r.value.0 <= |lines|
    ensures r.Err? ==> r.error == ValueError || r.error == NeverEnds
    decreases |lines| - pos
  {
    if |vals| >= nPlanes then Ok((pos, vals))
    else if pos == |lines| then Err(NeverEnds)   // readline() now gives '' forever
    else if !AllInts(lines[pos]) then Err(ValueError)
    else SepLoop(lines, pos + 1, nPlanes, vals + IntValues(lines[pos]))
  }

  /** One turn of the while loop: a line of integers is read, any other line raises. */
  lemma SepLoopTurn(lines: seq<Line>, pos: nat, nPlanes: int, vals: seq<int>)
    requires pos < |lines| && |vals| < nPlanes
    ensures SepLoop(lines, pos, nPlanes, vals)
      == if !AllInts(lines[pos]) then Err(ValueError)
         else SepLoop(lines, pos + 1, nPlanes, vals + IntValues(lines[pos]))
  {
  }

  /** How many lines the separation loop reads to collect `need` values, counting only the
      lengths of the lines. */
  function RunLength(lines: seq<Line>, pos: nat, need: int): (k: nat)
    requires pos <= |lines|
    ensures pos + k <= |lines|
    decreases |lines| - pos
  {
    if need <= 0 || pos == |lines| then 0 else 1 + RunLength(lines, pos + 1, need - |lines[pos]|)
  }

  /** lines[from..to] is the shortest run of lines from `from` holding at least `need` tokens. */
  ghost predicate IsMinRun(lines: seq<Line>, from: nat, need: int, to: nat) {
    && from <= to <= |lines|
    && |Concat(lines[from..to])| >= need
    && forall t :: from <= t < to ==> |Concat(lines[from..t])| < need
  }

  lemma ConcatStep(lines: seq<Line>, pos: nat, t: nat)
    requires pos < t <= |lines|
    ensures Concat(lines[pos..t]) == lines[pos] + Concat(lines[pos + 1..t])
  {
    assert lines[pos..t][0] == lines[pos] && lines[pos..t][1..] == lines[pos + 1..t];
  }

  /** No shorter run than RunLength's holds `need` tokens. */
  lemma {:induction false} RunLengthIsShortest(lines: seq<Line>, pos: nat, need: int)
    requires pos <= |lines|
    ensures forall t :: pos <= t < pos + RunLength(lines, pos, need) ==> |Concat(lines[pos..t])| < need
    decreases |lines| - pos
  {
    if need > 0 && pos < |lines| {
      RunLengthIsShortest(lines, pos + 1, need - |lines[pos]|);
      forall t | pos <= t < pos + RunLength(lines, pos, need) ensures |Concat(lines[pos..t])| < need {
        if t > pos {
          ConcatStep(lines, pos, t);
        } else {
          assert lines[pos..t] == [];
        }
      }
    }
  }

  /** A successful separation loop stops after RunLength lines, holding enough values. */
  lemma {:induction false} SepLoopLength(lines: seq<Line>, pos: nat, nPlanes: int, vals: seq<int>, p: nat, out: seq<int>)
    requires pos <= |lines|
    requires SepLoop(lines, pos, nPlanes, vals) == Ok((p, out))
    ensures p == pos + RunLength(lines, pos, nPlanes - |vals|) && |vals| + |Concat(lines[pos..p])| >= nPlanes
    decreases |lines| - pos
  {
    if |vals| >= nPlanes {
      assert lines[pos..pos] == [];
    } else {
      assert pos < |lines| && AllInts(lines[pos]);
      var line := lines[pos];
      SepLoopLength(lines, pos + 1, nPlanes, vals + IntValues(line), p, out);
      ConcatStep(lines, pos, p);
    }
  }

  /** A successful separation loop read only integer tokens, and its values are theirs, in
      file order across line breaks. */
  lemma {:induction false} SepLoopValues(lines: seq<Line>, pos: nat, nPlanes: int, vals: seq<int>, p: nat, out: seq<int>)
    requires pos <= |lines|
    requires SepLoop(lines, pos, nPlanes, vals) == Ok((p, out))
    ensures AllInts(Concat(lines[pos..p])) && out == vals + IntValues(Concat(lines[pos..p]))
    decreases |lines| - pos
  {
    if |vals| >= nPlanes {
      assert lines[pos..pos] == [];
    } else {
      assert pos < |lines| && AllInts(lines[pos]);
      var line := lines[pos];
      SepLoopValues(lines, pos + 1, nPlanes, vals + IntValues(line), p, out);
      var rest := Concat(lines[pos + 1..p]);
      ConcatStep(lines, pos, p);
      IntValuesAppend(line, rest);
      assert vals + IntValues(line) + IntValues(rest) == vals + (IntValues(line) + IntValues(rest));
    }
  }

  /** A successful separation loop reads exactly the shortest run of lines that holds the
      missing values, and collects their tokens in file order. */
  lemma SepLoopReadsMinimalRun(lines: seq<Line>, pos: nat, nPlanes: int, vals: seq<int>)
    requires pos <= |lines|
    requires SepLoop(lines, pos, nPlanes, vals).Ok?
    ensures var r := SepLoop(lines, pos, nPlanes, vals).value;
      && r.0 == pos + RunLength(lines, pos, nPlanes - |vals|)
      && IsMinRun(lines, pos, nPlanes - |vals|, r.0)
      && AllInts(Concat(lines[pos..r.0]))
      && r.1 == vals + IntValues(Concat(lines[pos..r.0]))
  {
    var r := SepLoop(lines, pos, nPlanes, vals).value;
    SepLoopLength(lines, pos, nPlanes, vals, r.0, r.1);
    SepLoopValues(lines, pos, nPlanes, vals, r.0, r.1);
    RunLengthIsShortest(lines, pos, nPlanes - |vals|);
  }

  /** The separation loop runs past end of file only when the rest of the file holds fewer
      values than are still missing: from then on every readline() is empty, `n` stays below
      n_planes, and the source loops forever. */
  lemma {:induction false} SepLoopNeverEndsOnlyWhenShort(lines: seq<Line>, pos: nat, nPlanes: int, vals: seq<int>)
    requires pos <= |lines|
    requires SepLoop(lines, pos, nPlanes, vals) == Err(NeverEnds)
    ensures |vals| + |Concat(lines[pos..])| < nPlanes
    decreases |lines| - pos
  {
    if pos == |lines| {
      assert lines[pos..] == [];
    } else {
      var line := lines[pos];
      SepLoopNeverEndsOnlyWhenShort(lines, pos + 1, nPlanes, vals + IntValues(line));
      assert lines[pos..][0] == line && lines[pos..][1..] == lines[pos + 1..];
    }
  }

  /** The loop succeeds exactly when the rest of the file holds the missing values and the
      lines it reads to collect them, the shortest such run, hold only integers. */
  lemma {:induction false} SepLoopSucceeds(lines: seq<Line>, pos: nat, nPlanes: int, vals: seq<int>)
    requires pos <= |lines|
    ensures SepLoop(lines, pos, nPlanes, vals).Ok?
      <==> && |vals| + |Concat(lines[pos..])| >= nPlanes
           && forall t :: pos <= t < pos + RunLength(lines, pos, nPlanes - |vals|) ==> AllInts(lines[t])
    decreases |lines| - pos
  {
    if |vals| >= nPlanes {
    } else if pos == |lines| {
      assert lines[pos..] == [];
    } else {
      var line := lines[pos];
      assert lines[pos..][0] == line && lines[pos..][1..] == lines[pos + 1..];
      if AllInts(line) {
        var vals' := vals + IntValues(line);
        SepLoopSucceeds(lines, pos + 1, nPlanes, vals');
        assert nPlanes - |vals'| == nPlanes - |vals| - |line|;
      } else {
        assert RunLength(lines, pos, nPlanes - |vals|) >= 1;
      }
    }
  }

  /** On a file whose remaining lines hold only integers, the loop finishes exactly when the
      rest of the file holds the missing values; empty lines on the way change nothing. */
  lemma {:induction false} SepLoopOutcome(lines: seq<Line>, pos: nat, nPlanes: int, vals: seq<int>)
    requires pos <= |lines|
    requires forall t :: pos <= t < |lines| ==> AllInts(lines[t])
    ensures SepLoop(lines, pos, nPlanes, vals).Ok? <==> |vals| + |Concat(lines[pos..])| >= nPlanes
    ensures SepLoop(lines, pos, nPlanes, vals).Err? ==> SepLoop(lines, pos, nPlanes, vals).error == NeverEnds
    decreases |lines| - pos
  {
    if pos == |lines| {
      assert lines[pos..] == [];
    } else {
      var line := lines[pos];
      SepLoopOutcome(lines, pos + 1, nPlanes, vals + IntValues(line));
      assert lines[pos..][0] == line && lines[pos..][1..] == lines[pos + 1..];
    }
  }

  // ---------------------------------------------------------------- the whole file

  /** The for loop of read, from plane `k` on, with the cursor at `pos`. */
  function ReadPlanes(lines: seq<Line>, pos: nat, k: nat, inst: Instance): Result<Instance, Error>
    requires pos <= |lines|
    decreases inst.nPlanes - k
  {
    if k >= inst.nPlanes then Ok(inst)
    else
      var plane :- ParseProfile(LineAt(lines, pos), k, inst.id);
      var run :- SepLoop(lines, Next(lines, pos), inst.nPlanes, []);
      ReadPlanes(lines, run.0, k + 1, inst.(planes := inst.planes + [plane], sep := RegisterRow(inst.sep, k, 0, run.1)))
  }

  /** One turn of the for loop: the profile, then the separation times, then the rest. */
  lemma ReadPlanesTurn(lines: seq<Line>, pos: nat, k: nat, inst: Instance)
    requires pos <= |lines| && k < inst.nPlanes
    ensures var profile := ParseProfile(LineAt(lines, pos), k, inst.id);
      var run := SepLoop(lines, Next(lines, pos), inst.nPlanes, []);
      ReadPlanes(lines, pos, k, inst)
        == if profile.Err? then Err(profile.error)
           else if run.Err? then Err(run.error)
           else ReadPlanes(lines, run.value.0, k + 1,
                           inst.(planes := inst.planes + [profile.value], sep := RegisterRow(inst.sep, k, 0, run.value.1)))
  {
  }

  /** FileReader.read(file_path) on a file whose split lines are `lines`. */
  function ReadSpec(filePath: string, lines: seq<Line>): Result<Instance, Error> {
    var id :- AirlandId(filePath);
    var header :- ParseHeader(LineAt(lines, 0));
    ReadPlanes(lines, Next(lines, 0), 0, Instance(id, header.0, header.1, [], map[]))
  }

  // ---------------------------------------------------------------- the layout it reads

  /** The line holding plane k's profile: line 1 for plane 0, and for each later plane the
      line right after the previous plane's separation run. */
  function ProfileLine(lines: seq<Line>, nPlanes: int, k: nat): (p: nat)
    ensures p <= |lines|
  {
    if k == 0 then Next(lines, 0)
    else
      var from := Next(lines, ProfileLine(lines, nPlanes, k - 1));
      from + RunLength(lines, from, nPlanes)
  }

  /** The separation tokens of plane k: the lines between its profile and the next one. */
  function SepRow(lines: seq<Line>, nPlanes: int, k: nat): Line {
    Concat(lines[Next(lines, ProfileLine(lines, nPlanes, k))..ProfileLine(lines, nPlanes, k + 1)])
  }

  function AsIntAt(ts: Line, c: int): Option<int> {
    if 0 <= c < |ts| && ts[c].IntLit? then Some(ts[c].v) else None
  }

  function Max(a: int, b: int): int { if a < b then b else a }
  function Min(a: int, b: int): int { if a < b then a else b }

  /** Plane r was built from its profile line. */
  ghost predicate PlaneOk(lines: seq<Line>, inst: Instance, r: nat)
    requires r < |inst.planes|
  {
    ParseProfile(LineAt(lines, ProfileLine(lines, inst.nPlanes, r)), r, inst.id) == Ok(inst.planes[r])
  }

  /** Planes 0 .. k-1 are present, each built from its profile line. */
  ghost predicate PlanesLoaded(lines: seq<Line>, inst: Instance, k: nat) {
    && |inst.planes| == k
    && forall r :: 0 <= r < k ==> PlaneOk(lines, inst, r)
  }

  /** The separation run of plane r is the shortest run of lines after its profile line
      holding at least n tokens, and every token in it is an integer. */
  ghost predicate RunOk(lines: seq<Line>, n: int, r: nat) {
    && IsMinRun(lines, Next(lines, ProfileLine(lines, n, r)), n, ProfileLine(lines, n, r + 1))
    && AllInts(SepRow(lines, n, r))
  }

  ghost predicate RunsLoaded(lines: seq<Line>, n: int, k: nat) {
    forall r :: 0 <= r < k ==> RunOk(lines, n, r)
  }

  /** Every pair of planes 0 .. k-1 carries the value the LATER of the two rows gives the
      earlier plane. */
  ghost predicate PairOk(lines: seq<Line>, n: int, sep: SepTable, i: nat, j: nat) {
    Lookup(sep, i, j) == AsIntAt(SepRow(lines, n, Max(i, j)), Min(i, j))
  }

  ghost predicate SepLoaded(lines: seq<Line>, n: int, sep: SepTable, k: nat) {
    forall i, j :: 0 <= i < k && 0 <= j < k ==> PairOk(lines, n, sep, i, j)
  }

  /** A token of row r past column n_planes - 1 pairs plane r with a plane id no row has;
      nothing overwrites it. */
  ghost predicate SurplusOk(lines: seq<Line>, n: int, sep: SepTable, r: nat, c: int) {
    Lookup(sep, r, c) == AsIntAt(SepRow(lines, n, r), c)
  }

  ghost predicate SurplusLoaded(lines: seq<Line>, n: int, sep: SepTable, k: nat) {
    forall r, c :: 0 <= r < k && n <= c < |SepRow(lines, n, r)| ==> SurplusOk(lines, n, sep, r, c)
  }

  /** The edges rows 0 .. k-1 write: {r, c} for every column c of row r. */
  ghost function RowKeys(lines: seq<Line>, n: int, k: nat): set<Edge>
    decreases k
  {
    if k == 0 then {} else RowKeys(lines, n, k - 1) + ColumnKeys(k - 1, 0, |SepRow(lines, n, k - 1)|)
  }

  lemma {:induction false} InRowKeys(lines: seq<Line>, n: int, k: nat, r: int, c: int)
    requires 0 <= r < k && 0 <= c < |SepRow(lines, n, r)|
    ensures Key(r, c) in RowKeys(lines, n, k)
    decreases k
  {
    if r == k - 1 {
      InColumnKeys(r, 0, |SepRow(lines, n, r)|, c);
    } else {
      InRowKeys(lines, n, k - 1, r, c);
    }
  }

  lemma {:induction false} RowKeysMember(lines: seq<Line>, n: int, k: nat, e: Edge)
    requires e in RowKeys(lines, n, k)
    ensures exists r, c :: 0 <= r < k && 0 <= c < |SepRow(lines, n, r)| && e == Key(r, c)
    decreases k
  {
    if e in RowKeys(lines, n, k - 1) {
      RowKeysMember(lines, n, k - 1, e);
    } else {
      ColumnKeysMember(k - 1, 0, |SepRow(lines, n, k - 1)|, e);
    }
  }

  ghost predicate Loaded(lines: seq<Line>, inst: Instance, k: nat) {
    && PlanesLoaded(lines, inst, k)
    && RunsLoaded(lines, inst.nPlanes, k)
    && SepLoaded(lines, inst.nPlanes, inst.sep, k)
    && SurplusLoaded(lines, inst.nPlanes, inst.sep, k)
  }

  /** Registering row k over a table with the edges of rows 0 .. k-1 gives the edges of
      rows 0 .. k. */
  lemma KeysLoadedStep(lines: seq<Line>, n: int, sep: SepTable, k: nat)
    requires sep.Keys == RowKeys(lines, n, k)
    requires AllInts(SepRow(lines, n, k))
    ensures RegisterRow(sep, k, 0, IntValues(SepRow(lines, n, k))).Keys == RowKeys(lines, n, k + 1)
  {
    RegisterRowKeys(sep, k, 0, IntValues(SepRow(lines, n, k)));
  }

  /** Registering row k over a table loaded for rows 0 .. k-1 gives one loaded for 0 .. k. */
  lemma SepLoadedStep(lines: seq<Line>, n: int, sep: SepTable, k: nat)
    requires k < n
    requires SepLoaded(lines, n, sep, k)
    requires |SepRow(lines, n, k)| >= n && AllInts(SepRow(lines, n, k))
    ensures SepLoaded(lines, n, RegisterRow(sep, k, 0, IntValues(SepRow(lines, n, k))), k + 1)
  {
    var vals := IntValues(SepRow(lines, n, k));
    var sep' := RegisterRow(sep, k, 0, vals);
    forall i, j | 0 <= i < k + 1 && 0 <= j < k + 1
      ensures PairOk(lines, n, sep', i, j)
    {
      LookupAfterRegisterRow(sep, k, 0, vals, i, j);
      if i == k || j == k {
        var c := if i == k then j else i;
        assert OtherEnd(k, i, j) == c && Max(i, j) == k && Min(i, j) == c;
        assert c < |vals| && vals[c] == SepRow(lines, n, k)[c].v;
      } else {
        assert PairOk(lines, n, sep, i, j);
      }
    }
  }

  /** Registering row k keeps the surplus columns of rows 0 .. k-1 and adds those of row k. */
  lemma SurplusLoadedStep(lines: seq<Line>, n: int, sep: SepTable, k: nat)
    requires k < n
    requires SurplusLoaded(lines, n, sep, k)
    requires AllInts(SepRow(lines, n, k))
    ensures SurplusLoaded(lines, n, RegisterRow(sep, k, 0, IntValues(SepRow(lines, n, k))), k + 1)
  {
    var vals := IntValues(SepRow(lines, n, k));
    var sep' := RegisterRow(sep, k, 0, vals);
    forall r, c | 0 <= r < k + 1 && n <= c < |SepRow(lines, n, r)|
      ensures SurplusOk(lines, n, sep', r, c)
    {
      LookupAfterRegisterRow(sep, k, 0, vals, r, c);
      if r == k {
        assert OtherEnd(k, r, c) == c;
      } else {
        assert OtherEnd(k, r, c) == r && SurplusOk(lines, n, sep, r, c);
      }
    }
  }

  /** One turn of the for loop of read keeps Loaded. */
  lemma PlanesLoadedStep(lines: seq<Line>, inst: Instance, k: nat, plane: Plane, sep: SepTable)
    requires PlanesLoaded(lines, inst, k)
    requires ParseProfile(LineAt(lines, ProfileLine(lines, inst.nPlanes, k)), k, inst.id) == Ok(plane)
    ensures PlanesLoaded(lines, inst.(planes := inst.planes + [plane], sep := sep), k + 1)
  {
    var next := inst.(planes := inst.planes + [plane], sep := sep);
    forall r | 0 <= r < k + 1
      ensures PlaneOk(lines, next, r)
    {
      if r < k {
        assert next.planes[r] == inst.planes[r];
        assert PlaneOk(lines, inst, r);
      }
    }
  }

  /** The separation loop of plane k, started right after its profile line, stops at the
      next profile line, reads an integer run, and registers that run as row k. */
  lemma SepRunFacts(lines: seq<Line>, n: int, k: nat)
    requires SepLoop(lines, Next(lines, ProfileLine(lines, n, k)), n, []).Ok?
    ensures var r := SepLoop(lines, Next(lines, ProfileLine(lines, n, k)), n, []).value;
      && r.0 == ProfileLine(lines, n, k + 1)
      && RunOk(lines, n, k)
      && |SepRow(lines, n, k)| >= n
      && r.1 == IntValues(SepRow(lines, n, k))
  {
    var from := Next(lines, ProfileLine(lines, n, k));
    SepLoopReadsMinimalRun(lines, from, n, []);
    var p := SepLoop(lines, from, n, []).value.0;
    assert p == ProfileLine(lines, n, k + 1);
    assert SepRow(lines, n, k) == Concat(lines[from..p]);
  }

  /** One turn of the for loop of read keeps Loaded. */
  lemma ReadPlanesStep(lines: seq<Line>, pos: nat, k: nat, inst: Instance)
    requires pos <= |lines| && k < inst.nPlanes
    requires pos == ProfileLine(lines, inst.nPlanes, k)
    requires Loaded(lines, inst, k)
    requires ParseProfile(LineAt(lines, pos), k, inst.id).Ok?
    requires SepLoop(lines, Next(lines, pos), inst.nPlanes, []).Ok?
    ensures var run := SepLoop(lines, Next(lines, pos), inst.nPlanes, []).value;
      var plane := ParseProfile(LineAt(lines, pos), k, inst.id).value;
      run.0 == ProfileLine(lines, inst.nPlanes, k + 1)
      && Loaded(lines, inst.(planes := inst.planes + [plane], sep := RegisterRow(inst.sep, k, 0, run.1)), k + 1)
  {
    var n := inst.nPlanes;
    var plane := ParseProfile(LineAt(lines, pos), k, inst.id).value;
    var run := SepLoop(lines, Next(lines, pos), n, []).value;
    SepRunFacts(lines, n, k);
    PlanesLoadedStep(lines, inst, k, plane, RegisterRow(inst.sep, k, 0, run.1));
    SepLoadedStep(lines, n, inst.sep, k);
    SurplusLoadedStep(lines, n, inst.sep, k);
    assert RunsLoaded(lines, n, k + 1);
  }

  /** The for loop of read only adds planes and separation times: the id and the two header
      values stay as the constructor set them. */
  lemma {:induction false} ReadPlanesKeepsHeader(lines: seq<Line>, pos: nat, k: nat, inst: Instance, out: Instance)
    requires pos <= |lines|
    requires ReadPlanes(lines, pos, k, inst) == Ok(out)
    ensures out.id == inst.id && out.nPlanes == inst.nPlanes && out.freezeTime == inst.freezeTime
    decreases inst.nPlanes - k
  {
    if k < inst.nPlanes {
      var plane := ParseProfile(LineAt(lines, pos), k, inst.id).value;
      var run := SepLoop(lines, Next(lines, pos), inst.nPlanes, []).value;
      ReadPlanesKeepsHeader(lines, run.0, k + 1, inst.(planes := inst.planes + [plane], sep := RegisterRow(inst.sep, k, 0, run.1)), out);
    }
  }

  lemma {:induction false} ReadPlanesLoads(lines: seq<Line>, pos: nat, k: nat, inst: Instance, out: Instance)
    requires pos <= |lines|
    requires pos == ProfileLine(lines, inst.nPlanes, k)
    requires Loaded(lines, inst, k)
    requires ReadPlanes(lines, pos, k, inst) == Ok(out)
    ensures Loaded(lines, out, if k < inst.nPlanes then inst.nPlanes else k)
    decreases inst.nPlanes - k
  {
    if k < inst.nPlanes {
      var plane := ParseProfile(LineAt(lines, pos), k, inst.id).value;
      var run := SepLoop(lines, Next(lines, pos), inst.nPlanes, []).value;
      ReadPlanesStep(lines, pos, k, inst);
      ReadPlanesLoads(lines, run.0, k + 1, inst.(planes := inst.planes + [plane], sep := RegisterRow(inst.sep, k, 0, run.1)), out);
    }
  }

  /** The graph holds exactly the edges of the runs of planes 0 .. k-1. */
  ghost predicate KeysLoaded(lines: seq<Line>, n: int, sep: SepTable, k: nat) {
    sep.Keys == RowKeys(lines, n, k)
  }

  /** One turn of the for loop of read keeps KeysLoaded. */
  lemma ReadPlanesKeysStep(lines: seq<Line>, pos: nat, k: nat, inst: Instance)
    requires pos <= |lines| && k < inst.nPlanes
    requires pos == ProfileLine(lines, inst.nPlanes, k)
    requires KeysLoaded(lines, inst.nPlanes, inst.sep, k)
    requires SepLoop(lines, Next(lines, pos), inst.nPlanes, []).Ok?
    ensures var run := SepLoop(lines, Next(lines, pos), inst.nPlanes, []).value;
      run.0 == ProfileLine(lines, inst.nPlanes, k + 1)
      && KeysLoaded(lines, inst.nPlanes, RegisterRow(inst.sep, k, 0, run.1), k + 1)
  {
    var n := inst.nPlanes;
    SepRunFacts(lines, n, k);
    KeysLoadedStep(lines, n, inst.sep, k);
  }

  /** The for loop of read adds to the graph exactly the edges the runs of planes k .. n-1
      name. */
  lemma {:induction false} ReadPlanesKeys(lines: seq<Line>, pos: nat, k: nat, inst: Instance, out: Instance)
    requires pos <= |lines|
    requires pos == ProfileLine(lines, inst.nPlanes, k)
    requires KeysLoaded(lines, inst.nPlanes, inst.sep, k)
    requires ReadPlanes(lines, pos, k, inst) == Ok(out)
    ensures KeysLoaded(lines, inst.nPlanes, out.sep, if k < inst.nPlanes then inst.nPlanes else k)
    decreases inst.nPlanes - k
  {
    if k < inst.nPlanes {
      var plane := ParseProfile(LineAt(lines, pos), k, inst.id).value;
      var run := SepLoop(lines, Next(lines, pos), inst.nPlanes, []).value;
      ReadPlanesKeysStep(lines, pos, k, inst);
      ReadPlanesKeys(lines, run.0, k + 1, inst.(planes := inst.planes + [plane], sep := RegisterRow(inst.sep, k, 0, run.1)), out);
    }
  }

  /** After a successful read: the id comes from the path, the header's two integers are
      n_planes and freeze_time in that order, and the planes and separation table are those
      the layout above describes. */
  lemma ReadSpecLoads(filePath: string, lines: seq<Line>)
    requires ReadSpec(filePath, lines).Ok?
    ensures var inst := ReadSpec(filePath, lines).value;
      && AirlandId(filePath) == Ok(inst.id)
      && ParseHeader(LineAt(lines, 0)) == Ok((inst.nPlanes, inst.freezeTime))
      && Loaded(lines, inst, if inst.nPlanes < 0 then 0 else inst.nPlanes)
  {
    var id := AirlandId(filePath).value;
    var header := ParseHeader(LineAt(lines, 0)).value;
    var inst0 := Instance(id, header.0, header.1, [], map[]);
    assert Loaded(lines, inst0, 0);
    var out := ReadSpec(filePath, lines).value;
    ReadPlanesKeepsHeader(lines, Next(lines, 0), 0, inst0, out);
    ReadPlanesLoads(lines, Next(lines, 0), 0, inst0, out);
  }

  /** Exactly n_planes profiles are read; plane k has id k, carries the instance id, and was
      parsed from the k-th profile line. */
  lemma ReadSpecPlanes(filePath: string, lines: seq<Line>)
    requires ReadSpec(filePath, lines).Ok?
    ensures var inst := ReadSpec(filePath, lines).value;
      && |inst.planes| == (if inst.nPlanes < 0 then 0 else inst.nPlanes)
      && forall k :: 0 <= k < |inst.planes| ==>
           inst.planes[k].id == k && inst.planes[k].airlandId == inst.id
           && Ok(inst.planes[k]) == ParseProfile(LineAt(lines, ProfileLine(lines, inst.nPlanes, k)), k, inst.id)
  {
    ReadSpecLoads(filePath, lines);
    var inst := ReadSpec(filePath, lines).value;
    forall k | 0 <= k < |inst.planes|
      ensures inst.planes[k].id == k && inst.planes[k].airlandId == inst.id
        && Ok(inst.planes[k]) == ParseProfile(LineAt(lines, ProfileLine(lines, inst.nPlanes, k)), k, inst.id)
    {
      assert PlaneOk(lines, inst, k);
    }
  }

  /** Each plane's separation run is the shortest run of lines after its profile holding at
      least n_planes values, and the next profile line follows it directly. */
  lemma ReadSpecRuns(filePath: string, lines: seq<Line>, k: nat)
    requires ReadSpec(filePath, lines).Ok?
    requires k < ReadSpec(filePath, lines).value.nPlanes
    ensures var n := ReadSpec(filePath, lines).value.nPlanes;
      var profile := ProfileLine(lines, n, k);
      && profile < |lines|
      && IsMinRun(lines, profile + 1, n, ProfileLine(lines, n, k + 1))
  {
    ReadSpecLoads(filePath, lines);
    var inst := ReadSpec(filePath, lines).value;
    var profile := ProfileLine(lines, inst.nPlanes, k);
    assert PlaneOk(lines, inst, k);
    assert RunOk(lines, inst.nPlanes, k);
  }

  /** The separation table the reader builds is symmetric and, for two planes i and j, holds
      the value that the LATER of the two rows gives the earlier plane: reading row j
      overwrites what row i said about j. */
  lemma ReadSpecSeparation(filePath: string, lines: seq<Line>, i: int, j: int)
    requires ReadSpec(filePath, lines).Ok?
    requires 0 <= i < ReadSpec(filePath, lines).value.nPlanes
    requires 0 <= j < ReadSpec(filePath, lines).value.nPlanes
    ensures var inst := ReadSpec(filePath, lines).value;
      var row := SepRow(lines, inst.nPlanes, Max(i, j));
      && Min(i, j) < |row| && row[Min(i, j)].IntLit?
      && Lookup(inst.sep, i, j) == Some(row[Min(i, j)].v)
      && Lookup(inst.sep, j, i) == Lookup(inst.sep, i, j)
  {
    ReadSpecLoads(filePath, lines);
    var inst := ReadSpec(filePath, lines).value;
    var n := inst.nPlanes;
    var r := Max(i, j);
    var from := Next(lines, ProfileLine(lines, n, r));
    assert RunOk(lines, n, r);
    assert SepRow(lines, n, r) == Concat(lines[from..ProfileLine(lines, n, r + 1)]);
    assert PairOk(lines, n, inst.sep, i, j);
    LookupSymmetric(inst.sep, i, j);
  }

  /** A surplus token, at a column n_planes or beyond on the last line of a run, is still
      registered: the pair {k, c} holds it, since no row of a later plane names plane c. */
  lemma ReadSpecSurplus(filePath: string, lines: seq<Line>, k: nat, c: int)
    requires ReadSpec(filePath, lines).Ok?
    requires k < ReadSpec(filePath, lines).value.nPlanes
    requires ReadSpec(filePath, lines).value.nPlanes <= c < |SepRow(lines, ReadSpec(filePath, lines).value.nPlanes, k)|
    ensures var inst := ReadSpec(filePath, lines).value;
      var row := SepRow(lines, inst.nPlanes, k);
      row[c].IntLit? && Lookup(inst.sep, k, c) == Some(row[c].v)
  {
    ReadSpecLoads(filePath, lines);
    var inst := ReadSpec(filePath, lines).value;
    assert RunOk(lines, inst.nPlanes, k);
    assert SurplusOk(lines, inst.nPlanes, inst.sep, k, c);
  }

  /** The read registers exactly the pairs the runs name: {k, c} for every plane k and every
      column c of its run, surplus columns included, and no other edge. */
  lemma ReadSpecEdges(filePath: string, lines: seq<Line>)
    requires ReadSpec(filePath, lines).Ok?
    ensures var inst := ReadSpec(filePath, lines).value;
      var n := inst.nPlanes;
      && (forall r, c :: 0 <= r < n && 0 <= c < |SepRow(lines, n, r)| ==> Key(r, c) in inst.sep)
      && (forall e :: e in inst.sep ==>
            exists r, c :: 0 <= r < n && 0 <= c < |SepRow(lines, n, r)| && e == Key(r, c))
  {
    var id := AirlandId(filePath).value;
    var header := ParseHeader(LineAt(lines, 0)).value;
    var inst0 := Instance(id, header.0, header.1, [], map[]);
    var inst := ReadSpec(filePath, lines).value;
    ReadPlanesKeepsHeader(lines, Next(lines, 0), 0, inst0, inst);
    ReadPlanesKeys(lines, Next(lines, 0), 0, inst0, inst);
    var n := inst.nPlanes;
    var k := if n < 0 then 0 else n;
    assert KeysLoaded(lines, n, inst.sep, k);
    forall r, c | 0 <= r < n && 0 <= c < |SepRow(lines, n, r)| ensures Key(r, c) in inst.sep {
      InRowKeys(lines, n, k, r, c);
    }
    forall e | e in inst.sep
      ensures exists r, c :: 0 <= r < n && 0 <= c < |SepRow(lines, n, r)| && e == Key(r, c)
    {
      RowKeysMember(lines, n, k, e);
    }
  }
}
