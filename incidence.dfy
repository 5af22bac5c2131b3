/** The vertex -> element lists that `find_vertex_trangle_connection`
    (TriangleMesh.cpp:119-125) and `find_vertex_tetrahedron_connection`
    (TetrahedronMesh.cpp:107-113) append to: element `i` is pushed onto the
    list of vertex `t[j][i]` for every corner `j`, elements in input order. */
module Incidence {
  import opened Tables

  /** Element `i` once for every corner `j < upto` of it that is vertex `v`. */
  function CornerHits(t: seq<seq<nat>>, rows: nat, n: nat, i: nat, v: nat, upto: nat): (h: seq<nat>)
    requires Columns(t, rows, n) && i < n && upto <= rows
    ensures |h| <= upto
    ensures forall x :: 0 <= x < |h| ==> h[x] == i
  {
    if upto == 0 then []
    else CornerHits(t, rows, n, i, v, upto - 1) + (if t[upto - 1][i] == v then [i] else [])
  }

  /** What the loops append to the list of vertex `v` for elements
      `0 .. m-1`. */
  function Incident(t: seq<seq<nat>>, rows: nat, n: nat, m: nat, v: nat): seq<nat>
    requires Columns(t, rows, n) && m <= n
  {
    if m == 0 then [] else Incident(t, rows, n, m - 1, v) + CornerHits(t, rows, n, m - 1, v, rows)
  }

  /** Each list is non-decreasing in element number and holds only elements
      below `m`. */
  lemma {:induction false} IncidentSorted(t: seq<seq<nat>>, rows: nat, n: nat, m: nat, v: nat)
    requires Columns(t, rows, n) && m <= n
    ensures forall x :: 0 <= x < |Incident(t, rows, n, m, v)| ==> Incident(t, rows, n, m, v)[x] < m
    ensures forall x, y :: 0 <= x < y < |Incident(t, rows, n, m, v)| ==>
      Incident(t, rows, n, m, v)[x] <= Incident(t, rows, n, m, v)[y]
  {
    if m > 0 {
      IncidentSorted(t, rows, n, m - 1, v);
    }
  }

  /** Some corner `j < upto` of element `i` is vertex `v`. */
  ghost predicate Touches(t: seq<seq<nat>>, rows: nat, n: nat, i: nat, v: nat, upto: nat)
    requires Columns(t, rows, n) && i < n && upto <= rows
  {
    exists j :: 0 <= j < upto && t[j][i] == v
  }

  lemma {:induction false} CornerHitsMembers(t: seq<seq<nat>>, rows: nat, n: nat, i: nat, v: nat, upto: nat)
    requires Columns(t, rows, n) && i < n && upto <= rows
    ensures i in CornerHits(t, rows, n, i, v, upto) <==> Touches(t, rows, n, i, v, upto)
  {
    if upto > 0 {
      CornerHitsMembers(t, rows, n, i, v, upto - 1);
      if t[upto - 1][i] == v {
        assert Touches(t, rows, n, i, v, upto);
      } else if Touches(t, rows, n, i, v, upto) {
        var j :| 0 <= j < upto && t[j][i] == v;
        assert Touches(t, rows, n, i, v, upto - 1);
      }
    }
  }

  /** Element `i` is on the list of `v` exactly when one of its corners is
      `v`. */
  lemma {:induction false} IncidentMembers(t: seq<seq<nat>>, rows: nat, n: nat, m: nat, v: nat, i: nat)
    requires Columns(t, rows, n) && m <= n
    ensures i in Incident(t, rows, n, m, v) <==> i < m && Touches(t, rows, n, i, v, rows)
  {
    if m <= i {
      IncidentBelow(t, rows, n, m, v, i);
    } else {
      var prev := Incident(t, rows, n, m - 1, v);
      var h := CornerHits(t, rows, n, m - 1, v, rows);
      assert Incident(t, rows, n, m, v) == prev + h;
      assert i in prev + h <==> i in prev || i in h;
      if i == m - 1 {
        IncidentBelow(t, rows, n, m - 1, v, i);
        CornerHitsMembers(t, rows, n, i, v, rows);
      } else {
        assert i !in h;
        IncidentMembers(t, rows, n, m - 1, v, i);
        assert i in prev <==> Touches(t, rows, n, i, v, rows);
      }
    }
  }

  lemma {:induction false} IncidentBelow(t: seq<seq<nat>>, rows: nat, n: nat, m: nat, v: nat, i: nat)
    requires Columns(t, rows, n) && m <= n && m <= i
    ensures i !in Incident(t, rows, n, m, v)
  {
    if m > 0 {
      IncidentBelow(t, rows, n, m - 1, v, i);
    }
  }

  /** The list `start` after the corner hits of elements `0 .. m-1` were
      pushed onto it one element at a time, as the loops do. */
  function Appended(start: seq<nat>, t: seq<seq<nat>>, rows: nat, n: nat, m: nat, v: nat): seq<nat>
    requires Columns(t, rows, n) && m <= n
  {
    if m == 0 then start else Appended(start, t, rows, n, m - 1, v) + CornerHits(t, rows, n, m - 1, v, rows)
  }

  /** Pushing element by element appends `Incident` as a whole. */
  lemma {:induction false} AppendedIsIncident(start: seq<nat>, t: seq<seq<nat>>, rows: nat, n: nat, m: nat, v: nat)
    requires Columns(t, rows, n) && m <= n
    ensures Appended(start, t, rows, n, m, v) == start + Incident(t, rows, n, m, v)
  {
    if m > 0 {
      AppendedIsIncident(start, t, rows, n, m - 1, v);
      var b, c := Incident(t, rows, n, m - 1, v), CornerHits(t, rows, n, m - 1, v, rows);
      assert start + b + c == start + (b + c);
    }
  }

  /** Sum over vertices `0 .. nVertex-1` of the lengths of their lists. */
  function TotalIncident(t: seq<seq<nat>>, rows: nat, n: nat, m: nat, nVertex: nat): nat
    requires Columns(t, rows, n) && m <= n
  {
    if nVertex == 0 then 0 else TotalIncident(t, rows, n, m, nVertex - 1) + |Incident(t, rows, n, m, nVertex - 1)|
  }

  /** Sum over vertices `0 .. nVertex-1` of the corner hits of element `i`. */
  function TotalHits(t: seq<seq<nat>>, rows: nat, n: nat, i: nat, upto: nat, nVertex: nat): nat
    requires Columns(t, rows, n) && i < n && upto <= rows
  {
    if nVertex == 0 then 0 else TotalHits(t, rows, n, i, upto, nVertex - 1) + |CornerHits(t, rows, n, i, nVertex - 1, upto)|
  }

  lemma {:induction false} TotalIncidentStep(t: seq<seq<nat>>, rows: nat, n: nat, m: nat, nVertex: nat)
    requires Columns(t, rows, n) && 0 < m <= n
    ensures TotalIncident(t, rows, n, m, nVertex)
         == TotalIncident(t, rows, n, m - 1, nVertex) + TotalHits(t, rows, n, m - 1, rows, nVertex)
  {
    if nVertex > 0 {
      TotalIncidentStep(t, rows, n, m, nVertex - 1);
    }
  }

  /** Corner `upto - 1` of element `i` is counted once, at its own vertex. */
  lemma {:induction false} TotalHitsStep(t: seq<seq<nat>>, rows: nat, n: nat, i: nat, upto: nat, nVertex: nat)
    requires Columns(t, rows, n) && i < n && 0 < upto <= rows
    ensures TotalHits(t, rows, n, i, upto, nVertex)
         == TotalHits(t, rows, n, i, upto - 1, nVertex) + (if t[upto - 1][i] < nVertex then 1 else 0)
  {
    if nVertex > 0 {
      TotalHitsStep(t, rows, n, i, upto, nVertex - 1);
    }
  }

  lemma {:induction false} TotalHitsAll(t: seq<seq<nat>>, rows: nat, n: nat, i: nat, upto: nat, nVertex: nat)
    requires Columns(t, rows, n) && i < n && upto <= rows
    requires forall j :: 0 <= j < upto ==> t[j][i] < nVertex
    ensures TotalHits(t, rows, n, i, upto, nVertex) == upto
  {
    if upto == 0 {
      TotalHitsNone(t, rows, n, i, nVertex);
    } else {
      TotalHitsAll(t, rows, n, i, upto - 1, nVertex);
      TotalHitsStep(t, rows, n, i, upto, nVertex);
    }
  }

  lemma {:induction false} TotalHitsNone(t: seq<seq<nat>>, rows: nat, n: nat, i: nat, nVertex: nat)
    requires Columns(t, rows, n) && i < n
    ensures TotalHits(t, rows, n, i, 0, nVertex) == 0
  {
    if nVertex > 0 {
      TotalHitsNone(t, rows, n, i, nVertex - 1);
    }
  }

  /** When every corner names a vertex below `nVertex`, the lists of those
      vertices hold `rows * m` entries together: one per corner. */
  lemma {:induction false} IncidentTotal(t: seq<seq<nat>>, rows: nat, n: nat, m: nat, nVertex: nat)
    requires Columns(t, rows, n) && m <= n
    requires forall j, i :: 0 <= j < rows && 0 <= i < m ==> t[j][i] < nVertex
    ensures TotalIncident(t, rows, n, m, nVertex) == rows * m
  {
    if m == 0 {
      TotalIncidentNone(t, rows, n, nVertex);
    } else {
      IncidentTotal(t, rows, n, m - 1, nVertex);
      TotalIncidentStep(t, rows, n, m, nVertex);
      TotalHitsAll(t, rows, n, m - 1, rows, nVertex);
      assert rows * m == rows * (m - 1) + rows;
    }
  }

  lemma {:induction false} TotalIncidentNone(t: seq<seq<nat>>, rows: nat, n: nat, nVertex: nat)
    requires Columns(t, rows, n)
    ensures TotalIncident(t, rows, n, 0, nVertex) == 0
  {
    if nVertex > 0 {
      TotalIncidentNone(t, rows, n, nVertex - 1);
    }
  }
}
