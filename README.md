# Airland instance loader

A Dafny model of the instance loader of an Aircraft Landing Problem solver. `FileReader.read`
takes a path such as `datasets/airland1.txt` and builds an `Airland` in three steps:

- It takes the instance id from the digit just before the first `.` of the path.
- It reads a header line with `n_planes` and `freeze_time`.
- For each plane it reads:
  - one profile line: four integer times, then either two cost coefficients scaled by 100,
    or two cost coefficients and a landing time, where the last two tokens are scaled by 100
    and the first coefficient is not;
  - a run of separation-time lines, read until at least `n_planes` values have arrived.

The `Airland` keeps the planes in a list that only grows. It keeps the separation times in an
undirected graph whose edges carry a `sep_time` attribute.

Modules:

- `Wrappers`, `Errors`: `Option`, `Result`, `Outcome`, and the Python exceptions the loader can
  raise (`IndexError`, `ValueError`, `TypeError`, `KeyError`). `NeverEnds` stands for the case
  where the source loops forever.
- `Tokens`: one token of `str.split()`, classified by what `int()` and `float()` make of it.
  A line is a sequence of tokens.
- `Planes`: the `Plane` record.
- `LineFiles`: the open file, as its split lines and a cursor. `readline()` past the end gives
  an empty line and does not move the cursor.
- `SepTables`: the graph, as a map from unordered pairs `{i, j}` to `sep_time`.
- `Airlands`: class `Airland`, with the same fields and methods as the source.
- `InstanceFormat`: pure functions that follow the reader step by step (`ReadSpec`, `ReadPlanes`,
  `SepLoop`, `ParseProfile`, `ParseHeader`, `AirlandId`). Also:
  - the lemmas about what a successful read contains;
  - the file layout it implies (`ProfileLine`, `SepRow`, `RunLength`).
- `FileReader`: the reader itself, as imperative methods over a `LineFile` and an `Airland`.
  Each method is proved to compute exactly what the matching `InstanceFormat` function says.

The separation table is not an asymmetric `n_planes × n_planes` matrix written once per
ordered pair, which would keep `sep(i, j)` and `sep(j, i)` apart. The code calls
`add_edge(i, j)` on an undirected `networkx.Graph`, and the model follows it. As a result:

- a lookup is symmetric;
- a later registration of the same unordered pair overwrites the earlier one;
- because row `i` is read before row `j`, the table holds for `{i, j}` the value that row
  `max(i, j)` gives in column `min(i, j)`.

`ReadSpecSeparation` proves this, and `ReadSpecEdges` proves that the graph holds no other
edges than those the runs name.

Two behaviours of the separation loop in `__read_sep_times`:

- It stops as soon as `n >= n_planes`.
- An empty line in the middle of the file does not keep it from finishing, since the cursor
  still moves on. Only the end of the file does: from there every `readline()` gives nothing,
  and the loop spins forever. The model returns `Err(NeverEnds)` for that case.
  `SepLoopNeverEndsOnlyWhenShort` proves that this happens only when the rest of the file holds
  fewer than the missing number of values.

## Model

| member | source | states |
|---|---|---|
| SepTables.Key | airland.py:17-18 | The edge named by `(i, j)` has the two ids as its ends, in one order or the other |
| SepTables.Lookup | airland.py:21-22 | `Gst[i][j]["sep_time"]`, with None for KeyError. Its properties are in `LookupSymmetric`, `LookupAfterRegister` and `Airland.GetSepTime` |
| SepTables.Register | airland.py:17-18 | After `add_edge(i, j, s)`, looking up `(i, j)` and `(j, i)` both give `s` |
| SepTables.RegisterAddsOneEdge | airland.py:17-18 | `add_edge` adds exactly the edge `{i, j}` to the edge set, and no other |
| SepTables.RegisterEdgeCount | airland.py:17-18 | The number of edges is unchanged if `{i, j}` was an edge, one more if not |
| SepTables.LookupAfterRegister | airland.py:17-22 | After registering `(i, j)`, a lookup of the same unordered pair gives the new value; every other pair keeps its old lookup |
| SepTables.Entries | airland.py:25-26 | `edges.data()`, with each `(u, v, {'sep_time': s})` written `(lo, hi, s)`: one entry for every edge, self-loops included; each entry is a lookup that succeeds, with `lo <= hi`; no two entries share a pair |
| SepTables.KeySymmetric | airland.py:17-18 | `(i, j)` and `(j, i)` name the same edge |
| SepTables.KeySameEdge | airland.py:17-18 | Two calls name the same edge exactly when they name the same unordered pair |
| SepTables.LookupSymmetric | airland.py:21-22 | `Gst[i][j]` and `Gst[j][i]` agree, including whether they raise |
| SepTables.ReverseRegistrationOverwrites | airland.py:17-18 | Registering `(j, i, s')` after `(i, j, s)` leaves `s'` in both directions, and adds at most one edge overall |
| Airlands.Airland.constructor | airland.py:4-10 | `id`, `n_planes` and `freeze_time` equal the arguments; no planes and no edges |
| Airlands.Airland.RegisterPlane | airland.py:13-14 | The plane list grows by the new plane at the end; earlier entries are unchanged; nothing else changes |
| Airlands.Airland.RegisterSepTime | airland.py:17-18 | Only the graph changes, and it becomes the old graph with edge `{i, j}` set to `s` |
| Airlands.Airland.GetSepTime | airland.py:21-22 | KeyError exactly when `{i, j}` was never registered; otherwise its current value, which the reverse lookup also gives |
| Airlands.Airland.GetAllSepTimes | airland.py:25-26 | One entry per registered unordered pair, self-pairs included, with its smaller end first and its latest value; every entry is such an edge, and no pair appears twice |
| Airlands.Airland.GetPlanes | airland.py:29-30 | The planes in registration order; changes nothing |
| LineFiles.LineFile.ReadLine | file_reader.py:10 | `readline().split()`: the line at the cursor, and the cursor moves one line, except at end of file where the line is empty and the cursor stays |
| InstanceFormat.BeforeFirstDot | file_reader.py:31 | `split('.')[0]` is a dot-free prefix of the path, followed by a dot unless it is the whole path |
| InstanceFormat.AirlandId | file_reader.py:31 | Succeeds exactly when the stem before the first dot is non-empty and ends in an ASCII digit; the id is that digit's value. IndexError exactly when the stem is empty; ValueError otherwise |
| InstanceFormat.DigitValue | file_reader.py:31 | `int()` of one character, on ASCII characters: succeeds exactly on `'0'..'9'`, with that digit's value; otherwise ValueError |
| InstanceFormat.AirlandIdIgnoresLeadingText | file_reader.py:31 | Dot-free text before a non-empty stem does not change the id |
| InstanceFormat.AirlandIdOfDatasetPath | file_reader.py:31 | `datasets/airland1.txt` has id 1 |
| InstanceFormat.AirlandIdKeepsLastDigit | file_reader.py:31 | `airland10.txt` has id 0: only the last digit is kept |
| InstanceFormat.AirlandIdNoDigit | file_reader.py:31 | `airland.txt` raises ValueError |
| InstanceFormat.AirlandIdLeadingDot | file_reader.py:31 | `./datasets/airland1.txt` has an empty stem and raises IndexError |
| InstanceFormat.ParseHeader | file_reader.py:34 | Succeeds exactly when the line is two integer tokens, giving `(n_planes, freeze_time)` in that order; every other line raises ValueError |
| InstanceFormat.Trunc | file_reader.py:14 | `int(x)` truncates toward zero |
| InstanceFormat.TruncOfInt | file_reader.py:11-14 | `int(float(v))` is `v` for an integer `v` |
| InstanceFormat.MakePlane | file_reader.py:15 | `Plane(plane_id, airland.id, *vals)`: 6 values fill the fields up to PCa and leave landing time 0, 7 values fill all nine, any other count is a TypeError. Stated for the whole profile line by `ParseProfile` |
| InstanceFormat.ParseProfile | file_reader.py:9-15 | Builds plane `planeId` exactly when tokens 0-3 pass `int()`, the rest pass `float()` and there are 6 or 7. A/E/T/L are tokens 0-3. With 6 tokens, PCb and PCa are tokens 4 and 5 times 100, truncated, and landing time is 0. With 7 tokens, PCb is token 4 unscaled, PCa is token 5 times 100 and landing time is token 6 times 100. A conversion failure is ValueError, fewer than 2 tokens IndexError, any other count TypeError |
| InstanceFormat.LookupAfterRegisterRow | file_reader.py:24-25 | After the for loop registers row `r` from column `col`, every pair `{r, c}` with a written column holds the value at position `c - col`; every other pair keeps its lookup |
| InstanceFormat.RegisterRowAppend | file_reader.py:24-27 | Registering two runs of values one after the other, the second from column `col + len(first)`, is registering their concatenation |
| InstanceFormat.RegisterRow | file_reader.py:24-25 | The inner for loop, value `j` to column `col + j`. Its properties are in `LookupAfterRegisterRow`, `RegisterRowAppend`, `RegisterRowSnoc` and `RegisterRowKeys` |
| InstanceFormat.RegisterRowKeys | file_reader.py:24-25 | Registering a row adds exactly the edges `{row, c}` for the columns it writes, and no other edge |
| InstanceFormat.RegisterRowSnoc | file_reader.py:24-25 | One more token of the line registers one more column, right after the previous ones |
| InstanceFormat.SepLoop | file_reader.py:20-27 | The while loop stops within the file or fails with ValueError (a non-integer token) or NeverEnds (end of file reached too early) |
| InstanceFormat.SepLoopLength | file_reader.py:20-27 | A successful loop reads exactly `RunLength` lines and holds at least `n_planes` values |
| InstanceFormat.SepLoopValues | file_reader.py:22-27 | A successful loop read only integer tokens, and its values are those tokens in file order, across line breaks |
| InstanceFormat.SepLoopReadsMinimalRun | file_reader.py:20-27 | A successful loop reads the shortest run of lines holding the missing values, and collects all their tokens in file order, so the columns are 0 .. total-1 |
| InstanceFormat.SepLoopNeverEndsOnlyWhenShort | file_reader.py:21-22 | The loop runs past end of file only when the rest of the file holds fewer values than are missing |
| InstanceFormat.SepLoopSucceeds | file_reader.py:21-27 | On any file, the loop succeeds exactly when the rest of the file holds the missing values and every line of the shortest run holding them is all integers |
| InstanceFormat.SepLoopOutcome | file_reader.py:21-27 | The special case where every remaining line is all integers, as on the file's last run: the loop succeeds exactly when enough values remain, and otherwise never ends. Empty lines on the way do not matter |
| InstanceFormat.ReadPlanes | file_reader.py:37-39 | The for loop of `read`, plane by plane: profile, then separation run, stopping at the first exception. Its properties are in `ReadPlanesKeepsHeader` and `ReadPlanesLoads`, and `FileReader.ReadAllPlanes` is proved equal to it |
| InstanceFormat.ReadSpec | file_reader.py:30-41 | `read` as a function of the path and the file's lines. Its properties are in `ReadSpecLoads`, `ReadSpecPlanes`, `ReadSpecRuns`, `ReadSpecSeparation`, `ReadSpecSurplus` and `ReadSpecEdges`, and `FileReader.Read` is proved equal to it |
| InstanceFormat.ReadPlanesKeepsHeader | file_reader.py:37-39 | The for loop keeps the id, `n_planes` and `freeze_time` |
| InstanceFormat.ReadPlanesLoads | file_reader.py:37-39 | A successful for loop leaves every plane and run as the layout describes, and every pair holding the later row's value |
| InstanceFormat.ReadPlanesKeys | file_reader.py:37-39 | A successful for loop leaves exactly the edges `{r, c}` for every plane `r` and every column `c` of its run |
| InstanceFormat.ReadSpecLoads | file_reader.py:30-41 | After a successful read: the id comes from the path; the header's two integers are `n_planes` and `freeze_time` in that order; the planes, runs and table follow the layout |
| InstanceFormat.ReadSpecPlanes | file_reader.py:37-38 | Exactly `n_planes` planes; plane `k` has id `k`, the instance id, and was parsed from the `k`-th profile line |
| InstanceFormat.ReadSpecRuns | file_reader.py:37-39 | Plane `k`'s separation run is the shortest run of lines after its profile holding `n_planes` values; the next profile line follows it directly |
| InstanceFormat.ReadSpecSeparation | file_reader.py:24-25 | For planes `i`, `j`, the table holds the integer in column `min(i, j)` of row `max(i, j)`, in both directions: the later row overwrites the earlier |
| InstanceFormat.ReadSpecSurplus | file_reader.py:24-27 | A token beyond column `n_planes - 1` on the last line of a run is still registered, for the pair `{k, c}` |
| InstanceFormat.ReadSpecEdges | file_reader.py:24-25 | After a read, the edges of the graph are exactly `{k, c}` for every plane `k` and every column `c` of its run, surplus columns included |
| FileReader.ReadPlaneProfile | file_reader.py:9-16 | Reads one line. On success the plane `ParseProfile` builds is appended; on failure, the exception `ParseProfile` gives and the plane list unchanged |
| FileReader.RegisterLine | file_reader.py:24-25 | Succeeds exactly when every token passes `int()`, else ValueError. On success the graph is the old one with the line registered as row `planeId` from column `n` |
| FileReader.ReadSepTimes | file_reader.py:19-27 | Succeeds exactly when `SepLoop` does, leaving the cursor where it stops and the graph with its values registered as row `planeId` from column 0; otherwise the same exception |
| FileReader.ReadAllPlanes | file_reader.py:37-39 | Succeeds exactly when `ReadPlanes` does, leaving the Airland equal to its result; otherwise the same exception |
| FileReader.Read | file_reader.py:30-41 | Succeeds exactly when `ReadSpec` does, returning a new Airland whose state is `ReadSpec`'s result; otherwise the same exception |

## Left out

- File opening and I/O (file_reader.py:33): the file is given as its lines after `str.split()`. Only the cursor of `readline()` is modelled.
- Tokens are abstract. Which strings `int()` and `float()` accept is not modelled: signs, underscores, non-ASCII digits, `nan`, `inf`, exponents.
- InstanceFormat.DigitValue, InstanceFormat.AirlandId: only ASCII digits are modelled. Python's `int()` also accepts other Unicode decimal digits, such as `'٣'`, where the model gives ValueError.
- Floating point: `float` is an exact real, and `int(float(t) * 100)` truncates that real. IEEE rounding is not modelled, so the model gives `29` where Python gives `28` for `0.29`.
- A separation loop that reaches end of file spins forever in the source. The model returns `Err(NeverEnds)` there, and proves when that happens.
- A failed read: the model returns the exception. The partly filled Airland is discarded, as it is in the source. The registrations made before the exception are not observable, so they are not stated.
- The initial node set `add_nodes_from(range(1, n_planes))` (airland.py:10): nodes exist only as edge ends in the model. Isolated nodes change no lookup and no edge.
- Edge orientation, iteration order and entry shape of `edges.data()`. `GetAllSepTimes` returns a set of entries, each with its smaller end first. Where networkx gives the attribute dict `{'sep_time': s}` as the third element, the model gives `s`.
- Airlands.Airland.GetPlanes: returns the list by value; aliasing of the returned Python list is not modelled.
- The plane times are declared float in plane.py, but the reader only ever passes integers. `Plane` has integer fields, and the default landing time is `0`.
- The comments at file_reader.py:12-13 swap the names PCa and PCb. The model follows the positions and the field order of plane.py.
- main.py, pulp_solver.py and generate_charts.py, which hold directory scanning, an external MILP solver and plotting, are not part of this model. The pair classifier, model builder and cost function are not in the files modelled.
