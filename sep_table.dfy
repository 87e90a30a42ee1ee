/** The separation-time graph of an instance (a networkx.Graph in the source), seen as a map
    from unordered pairs of plane ids to the sep_time attribute of their edge. */
module SepTables {
  import opened Wrappers

  datatype Pair = Pair(lo: int, hi: int)

  /** An undirected edge {lo, hi}, stored with its smaller end first; {i, i} is a self-loop. */
  type Edge = p: Pair | p.lo <= p.hi witness Pair(0, 0)

  /** The edge joining i and j, whichever end is named first. */
  function Key(i: int, j: int): (e: Edge)
    ensures (e.lo == i && e.hi == j) || (e.lo == j && e.hi == i)
  {
    if i <= j then Pair(i, j) else Pair(j, i)
  }

  type SepTable = map<Edge, int>

  /** Gst[i][j]["sep_time"], or None where networkx raises KeyError. */
  function Lookup(m: SepTable, i: int, j: int): Option<int> {
    if Key(i, j) in m then Some(m[Key(i, j)]) else None
  }

  /** Gst.add_edge(i, j, sep_time=s): creates the edge or overwrites its attribute. */
  function Register(m: SepTable, i: int, j: int, s: int): (m': SepTable)
    ensures Lookup(m', i, j) == Some(s) && Lookup(m', j, i) == Some(s)
  {
    m[Key(i, j) := s]
  }

  /** Registering adds the one edge {i, j} to the graph, if it was not there, and no other. */
  lemma RegisterAddsOneEdge(m: SepTable, i: int, j: int, s: int)
    ensures Register(m, i, j, s).Keys == m.Keys + {Key(i, j)}
  {
  }

  /** So the number of edges stays the same when {i, j} was an edge, and grows by one if not. */
  lemma RegisterEdgeCount(m: SepTable, i: int, j: int, s: int)
    ensures |Register(m, i, j, s).Keys| == if Key(i, j) in m then |m.Keys| else |m.Keys| + 1
  {
    RegisterAddsOneEdge(m, i, j, s);
    var k := Key(i, j);
    if k in m {
      assert m.Keys + {k} == m.Keys;
    }
  }

  /** What a lookup sees after one registration: the new value on that unordered pair,
      the old lookup on every other pair. */
  lemma LookupAfterRegister(m: SepTable, i: int, j: int, s: int, a: int, b: int)
    ensures Lookup(Register(m, i, j, s), a, b) == if Key(a, b) == Key(i, j) then Some(s) else Lookup(m, a, b)
  {
  }

  /** Gst.edges.data(): one entry per edge. networkx gives (u, v, {'sep_time': s}); the
      entry here carries s itself in place of the attribute dict. */
  function Entries(m: SepTable): (es: set<(int, int, int)>)
    ensures forall e :: e in m ==> (e.lo, e.hi, m[e]) in es
    ensures forall t :: t in es ==> t.0 <= t.1 && Lookup(m, t.0, t.1) == Some(t.2)
    ensures forall t, u :: t in es && u in es && t.0 == u.0 && t.1 == u.1 ==> t == u
  {
    set e | e in m :: (e.lo, e.hi, m[e])
  }

  /** The two ends of an edge play the same part. */
  lemma KeySymmetric(i: int, j: int)
    ensures Key(i, j) == Key(j, i)
  {
  }

  /** Two calls name the same edge exactly when they name the same unordered pair. */
  lemma KeySameEdge(a: int, b: int, c: int, d: int)
    ensures Key(a, b) == Key(c, d) <==> (a == c && b == d) || (a == d && b == c)
  {
  }

  lemma LookupSymmetric(m: SepTable, i: int, j: int)
    ensures Lookup(m, i, j) == Lookup(m, j, i)
  {
    KeySymmetric(i, j);
  }

  /** Registering (j, i) after (i, j) replaces the earlier value, in both directions. */
  lemma ReverseRegistrationOverwrites(m: SepTable, i: int, j: int, s: int, s': int)
    ensures var m' := Register(Register(m, i, j, s), j, i, s');
      Lookup(m', i, j) == Some(s') && Lookup(m', j, i) == Some(s')
      && |m'.Keys| <= |m.Keys| + 1
  {
    KeySymmetric(i, j);
    var m1 := Register(m, i, j, s);
    RegisterEdgeCount(m, i, j, s);
    RegisterEdgeCount(m1, j, i, s');
  }
}
