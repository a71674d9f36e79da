/**
  Isolated-node removal of src/deChimera.cpp.

  The program reads a graph of `n` nodes as a list of weighted edges with
  1-based endpoints, drops the edges of weight 0, counts every node's
  degree over the edges it kept, gives the nodes of positive degree new
  consecutive numbers in their old order, and writes every kept edge with
  renamed endpoints, the smaller first, back in 1-based form.

  The reading and writing of the streams are not modelled: the edges come
  in as a sequence and the written edges go out as one.  A weight is only
  compared with 0 and copied, so an exact `real` stands for the `double`.
*/
module DeChimera {

  /** An edge `f t w`. */
  datatype Edge = Edge(f: nat, t: nat, w: real)

  /** The input's own demand: endpoints are 1-based node numbers. Only
      edges of nonzero weight index the degree vector, so only they need
      it. */
  predicate Indexed(n: nat, es: seq<Edge>)
  {
    forall i :: 0 <= i < |es| && es[i].w != 0.0 ==> 1 <= es[i].f <= n && 1 <= es[i].t <= n
  }

  // ---------------------------------------------------------------------
  // The edges that are kept.

  /** The edges of nonzero weight, in input order, with 0-based endpoints. */
  function Kept(n: nat, es: seq<Edge>): (r: seq<Edge>)
    requires Indexed(n, es)
    ensures |r| <= |es|
    ensures forall j :: 0 <= j < |r| ==> r[j].w != 0.0 && r[j].f < n && r[j].t < n
  {
    if |es| == 0 then []
    else
      var e := es[|es| - 1];
      Kept(n, es[..|es| - 1]) + (if e.w != 0.0 then [Edge(e.f - 1, e.t - 1, e.w)] else [])
  }

  /** The input edges of nonzero weight, by position. */
  ghost function NonZero(es: seq<Edge>, m: nat): set<nat>
    requires m <= |es|
  {
    set i: nat | i < m && es[i].w != 0.0
  }

  /** One edge is written for every edge of nonzero weight. */
  lemma {:induction false} KeptCount(n: nat, es: seq<Edge>)
    requires Indexed(n, es)
    ensures |Kept(n, es)| == |NonZero(es, |es|)|
    decreases |es|
  {
    if |es| > 0 {
      var m := |es| - 1;
      var p := es[..m];
      KeptCount(n, p);
      assert NonZero(p, m) == NonZero(es, m);
      if es[m].w != 0.0 {
        assert NonZero(es, m + 1) == NonZero(es, m) + {m};
      } else {
        assert NonZero(es, m + 1) == NonZero(es, m);
      }
    }
  }

  /** The positions of the input edges of nonzero weight, in input order. */
  ghost function Origins(es: seq<Edge>): (idx: seq<nat>)
    ensures forall j :: 0 <= j < |idx| ==> idx[j] < |es|
  {
    if |es| == 0 then []
    else Origins(es[..|es| - 1]) + (if es[|es| - 1].w != 0.0 then [|es| - 1] else [])
  }

  /** The kept edges are the input edges of nonzero weight in input order:
      the j-th kept edge is the input edge at `Origins(es)[j]` with its
      endpoints moved to 0-based numbers, those positions strictly
      increase, and they are exactly the positions of nonzero weight. */
  lemma {:induction false} KeptOrigin(n: nat, es: seq<Edge>)
    requires Indexed(n, es)
    ensures |Origins(es)| == |Kept(n, es)|
    ensures forall j :: 0 <= j < |Origins(es)| ==>
      var i := Origins(es)[j];
      es[i].w != 0.0 && Kept(n, es)[j] == Edge(es[i].f - 1, es[i].t - 1, es[i].w)
    ensures forall j, k :: 0 <= j < k < |Origins(es)| ==> Origins(es)[j] < Origins(es)[k]
    ensures forall i :: 0 <= i < |es| ==> (es[i].w != 0.0 <==> i in Origins(es))
    decreases |es|
  {
    if |es| > 0 {
      var m := |es| - 1;
      var p := es[..m];
      KeptOrigin(n, p);
      var ip, kp := Origins(p), Kept(n, p);
      assert Origins(es) == ip + (if es[m].w != 0.0 then [m] else []);
      assert Kept(n, es) == kp + (if es[m].w != 0.0 then [Edge(es[m].f - 1, es[m].t - 1, es[m].w)] else []);
      forall j | 0 <= j < |ip|
        ensures Origins(es)[j] == ip[j] && Kept(n, es)[j] == kp[j] && es[ip[j]] == p[ip[j]]
      {
      }
      forall i | 0 <= i < m
        ensures es[i] == p[i] && (i in Origins(es) <==> i in ip)
      {
        assert i in Origins(es) ==> i in ip;
      }
    }
  }

  // ---------------------------------------------------------------------
  // Degrees.

  /** How many endpoints of `e` are node `k`: 2 for a self-loop on `k`. */
  function Hits(e: Edge, k: nat): (r: nat)
    ensures r <= 2
    ensures r > 0 <==> e.f == k || e.t == k
    ensures e.f == k && e.t == k ==> r == 2
  {
    (if e.f == k then 1 else 0) + (if e.t == k then 1 else 0)
  }

  /** The degree of node `k`: the number of endpoints equal to `k`. */
  function Degree(es: seq<Edge>, k: nat): nat
  {
    if |es| == 0 then 0 else Degree(es[..|es| - 1], k) + Hits(es[|es| - 1], k)
  }

  /** The degrees of nodes 0 .. n-1. */
  function Degrees(es: seq<Edge>, n: nat): (deg: seq<nat>)
    ensures |deg| == n
    ensures forall k :: 0 <= k < n ==> deg[k] == Degree(es, k)
  {
    seq(n, k requires 0 <= k < n => Degree(es, k))
  }

  /** Both endpoints of an edge have positive degree. */
  lemma {:induction false} EndpointDegree(es: seq<Edge>, j: nat)
    requires j < |es|
    ensures Degree(es, es[j].f) > 0 && Degree(es, es[j].t) > 0
    decreases |es|
  {
    var m := |es| - 1;
    if j < m {
      var p := es[..m];
      assert p[j] == es[j];
      EndpointDegree(p, j);
    }
  }

  /** A node of positive degree is an endpoint of some edge. */
  lemma {:induction false} DegreeWitness(es: seq<Edge>, k: nat)
    requires Degree(es, k) > 0
    ensures exists j :: 0 <= j < |es| && (es[j].f == k || es[j].t == k)
    decreases |es|
  {
    var m := |es| - 1;
    if Hits(es[m], k) == 0 {
      var p := es[..m];
      DegreeWitness(p, k);
      var j :| 0 <= j < |p| && (p[j].f == k || p[j].t == k);
      assert p[j] == es[j];
    }
  }

  // ---------------------------------------------------------------------
  // Renaming.

  /** The number of nodes below `k` of positive degree. */
  function Rank(deg: seq<nat>, k: nat): (r: nat)
    requires k <= |deg|
    ensures r <= k
  {
    if k == 0 then 0 else Rank(deg, k - 1) + (if deg[k - 1] > 0 then 1 else 0)
  }

  /** The nodes below `m` of positive degree. */
  ghost function Busy(deg: seq<nat>, m: nat): set<nat>
    requires m <= |deg|
  {
    set k: nat | k < m && deg[k] > 0
  }

  /** `Rank` counts the nodes of positive degree. */
  lemma {:induction false} RankCounts(deg: seq<nat>, m: nat)
    requires m <= |deg|
    ensures Rank(deg, m) == |Busy(deg, m)|
  {
    if m > 0 {
      RankCounts(deg, m - 1);
      if deg[m - 1] > 0 {
        assert Busy(deg, m) == Busy(deg, m - 1) + {m - 1};
      } else {
        assert Busy(deg, m) == Busy(deg, m - 1);
      }
    }
  }

  /** `Rank` never decreases, and grows past every node of positive degree. */
  lemma {:induction false} RankGrows(deg: seq<nat>, j: nat, k: nat)
    requires j < k <= |deg|
    ensures Rank(deg, j) + (if deg[j] > 0 then 1 else 0) <= Rank(deg, k)
    decreases k
  {
    if j < k - 1 {
      RankGrows(deg, j, k - 1);
    }
  }

  /** The new name of every node: its rank when its degree is positive, and
      the vector's initial 0 otherwise. */
  function Names(deg: seq<nat>): (name: seq<nat>)
    ensures |name| == |deg|
    ensures forall k :: 0 <= k < |deg| ==> name[k] == (if deg[k] > 0 then Rank(deg, k) else 0)
  {
    seq(|deg|, k requires 0 <= k < |deg| => if deg[k] > 0 then Rank(deg, k) else 0)
  }

  /** The renaming keeps the order of the nodes it renames. */
  lemma {:induction false} NamesIncrease(deg: seq<nat>, j: nat, k: nat)
    requires j < k < |deg| && deg[j] > 0 && deg[k] > 0
    ensures Names(deg)[j] < Names(deg)[k]
  {
    RankGrows(deg, j, k);
  }

  /** Renamed nodes fall below the number of nodes of positive degree. */
  lemma {:induction false} NamesBelow(deg: seq<nat>, k: nat)
    requires k < |deg| && deg[k] > 0
    ensures Names(deg)[k] < Rank(deg, |deg|)
  {
    RankGrows(deg, k, |deg|);
  }

  /** Every number below the count of nodes of positive degree is the new
      name of one of them. */
  lemma {:induction false} NamesOnto(deg: seq<nat>, m: nat, r: nat)
    requires m <= |deg| && r < Rank(deg, m)
    ensures exists k :: 0 <= k < m && deg[k] > 0 && Names(deg)[k] == r
  {
    if r < Rank(deg, m - 1) {
      NamesOnto(deg, m - 1, r);
    } else {
      assert deg[m - 1] > 0 && Names(deg)[m - 1] == r;
    }
  }

  // ---------------------------------------------------------------------
  // Writing the edges.

  /** An edge between renamed nodes `a` and `b`, smaller end first, back
      in 1-based numbers. */
  function Orient(a: nat, b: nat, w: real): (r: Edge)
    ensures 1 <= r.f <= r.t
    ensures multiset{r.f, r.t} == multiset{a + 1, b + 1}
    ensures r.w == w
  {
    if a > b then Edge(b + 1, a + 1, w) else Edge(a + 1, b + 1, w)
  }

  /** Endpoints inside the node range. */
  predicate Within(n: nat, es: seq<Edge>)
  {
    forall j :: 0 <= j < |es| ==> es[j].f < n && es[j].t < n
  }

  /** The written edges: every kept edge with renamed, ordered endpoints. */
  function Output(kept: seq<Edge>, name: seq<nat>): (out: seq<Edge>)
    requires Within(|name|, kept)
    ensures |out| == |kept|
    ensures forall j :: 0 <= j < |out| ==>
      out[j] == Orient(name[kept[j].f], name[kept[j].t], kept[j].w)
  {
    seq(|kept|, j requires 0 <= j < |kept| => Orient(name[kept[j].f], name[kept[j].t], kept[j].w))
  }

  /** Every written edge joins two nodes of the compacted graph, 1-based,
      smaller end first, and keeps the weight of the kept edge it comes
      from. */
  lemma {:induction false} OutputInRange(kept: seq<Edge>, n: nat, deg: seq<nat>, out: seq<Edge>)
    requires Within(n, kept) && deg == Degrees(kept, n) && out == Output(kept, Names(deg))
    ensures forall j :: 0 <= j < |out| ==> 1 <= out[j].f <= out[j].t <= Rank(deg, n) && out[j].w == kept[j].w
  {
    forall j | 0 <= j < |out|
      ensures 1 <= out[j].f <= out[j].t <= Rank(deg, n) && out[j].w == kept[j].w
    {
      EndpointDegree(kept, j);
      NamesBelow(deg, kept[j].f);
      NamesBelow(deg, kept[j].t);
    }
  }

  // ---------------------------------------------------------------------
  // The program.

  /** The nodes that keep an edge. */
  ghost function Active(kept: seq<Edge>, n: nat): set<nat>
  {
    set k: nat | k < n && Degree(kept, k) > 0
  }

  /** The new node count is the number of nodes of positive degree. */
  lemma {:induction false} NewCount(kept: seq<Edge>, n: nat, deg: seq<nat>)
    requires deg == Degrees(kept, n)
    ensures Rank(deg, n) == |Active(kept, n)|
  {
    RankCounts(deg, n);
    assert Busy(deg, n) == Active(kept, n);
  }

  /** Lines 100-149 of `main`: filter, count degrees, rename, orient. */
  method RemoveIsolated(n: nat, input: seq<Edge>) returns (newN: nat, out: seq<Edge>)
    requires Indexed(n, input)
    ensures var kept := Kept(n, input); var deg := Degrees(kept, n);
      newN == Rank(deg, n) && out == Output(kept, Names(deg))
    ensures newN == |Active(Kept(n, input), n)|
    ensures |out| == |NonZero(input, |input|)|
    ensures forall j :: 0 <= j < |out| ==> 1 <= out[j].f <= out[j].t <= newN && out[j].w != 0.0
  {
    var edges, degree := Collect(n, input);
    var name: array<nat>;
    name, newN := Rename(degree);
    out := WriteEdges(edges, name);
    ghost var deg := Degrees(edges, n);
    assert degree[..] == deg;
    NewCount(edges, n, deg);
    KeptCount(n, input);
    OutputInRange(edges, n, deg, out);
  }

  /** Reading one more input edge keeps it when its weight is nonzero. */
  lemma {:induction false} KeptStep(n: nat, input: seq<Edge>, e: nat)
    requires Indexed(n, input) && e < |input|
    ensures var edge := input[e];
      Kept(n, input[..e + 1]) == Kept(n, input[..e])
        + (if edge.w != 0.0 then [Edge(edge.f - 1, edge.t - 1, edge.w)] else [])
  {
    assert input[..e + 1][..e] == input[..e];
  }

  /** A kept edge adds its endpoint hits to every degree. */
  lemma {:induction false} DegreeStep(edges: seq<Edge>, kept: Edge, k: nat)
    ensures Degree(edges + [kept], k) == Degree(edges, k) + Hits(kept, k)
  {
    assert (edges + [kept])[..|edges|] == edges;
  }

  /** One count for each endpoint, the second read after the first write. */
  function Bump(deg: seq<nat>, f: nat, t: nat): (r: seq<nat>)
    requires f < |deg| && t < |deg|
    ensures |r| == |deg|
  {
    var once := deg[f := deg[f] + 1];
    once[t := once[t] + 1]
  }

  /** Counting a kept edge into the degree vector yields the degrees of the
      longer edge list. */
  lemma {:induction false} DegreesStep(edges: seq<Edge>, kept: Edge, n: nat)
    requires kept.f < n && kept.t < n
    ensures Degrees(edges + [kept], n) == Bump(Degrees(edges, n), kept.f, kept.t)
  {
    forall k | 0 <= k < n
      ensures Degrees(edges + [kept], n)[k] == Bump(Degrees(edges, n), kept.f, kept.t)[k]
    {
      DegreeStep(edges, kept, k);
    }
  }

  /** Counts one edge into the degree vector, as `Bump` says. */
  method Count(degree: array<nat>, f: nat, t: nat)
    requires f < degree.Length && t < degree.Length
    modifies degree
    ensures degree[..] == Bump(old(degree[..]), f, t)
  {
    degree[f] := degree[f] + 1;
    degree[t] := degree[t] + 1;
  }

  /** The edge loop: keep the edges of nonzero weight, 0-based, and count
      both endpoints of each into `degree`. */
  method Collect(n: nat, input: seq<Edge>) returns (edges: seq<Edge>, degree: array<nat>)
    requires Indexed(n, input)
    ensures fresh(degree) && degree.Length == n
    ensures edges == Kept(n, input) && Within(n, edges)
    ensures degree[..] == Degrees(edges, n)
  {
    degree := new nat[n](_ => 0);
    edges := [];
    var e := 0;
    assert degree[..] == Degrees(edges, n);
    while e < |input|
      invariant 0 <= e <= |input|
      invariant degree.Length == n
      invariant edges == Kept(n, input[..e])
      invariant degree[..] == Degrees(edges, n)
      modifies degree
    {
      var edge := input[e];
      KeptStep(n, input, e);
      if edge.w != 0.0 {
        var kept := Edge(edge.f - 1, edge.t - 1, edge.w);
        Count(degree, kept.f, kept.t);
        DegreesStep(edges, kept, n);
        edges := edges + [kept];
      }
      e := e + 1;
    }
    assert input[..e] == input;
  }

  /** The name vector once the first k nodes have been visited: zeros,
      with the rank written at every visited node of positive degree. */
  function Renamed(deg: seq<nat>, k: nat): (name: seq<nat>)
    requires k <= |deg|
    ensures |name| == |deg|
  {
    if k == 0 then seq(|deg|, _ => 0)
    else if deg[k - 1] > 0 then Renamed(deg, k - 1)[k - 1 := Rank(deg, k - 1)]
    else Renamed(deg, k - 1)
  }

  /** Entry j of the vector after k visits. */
  lemma {:induction false} RenamedAt(deg: seq<nat>, k: nat, j: nat)
    requires k <= |deg| && j < |deg|
    ensures Renamed(deg, k)[j] == (if j < k && deg[j] > 0 then Rank(deg, j) else 0)
  {
    if k > 0 {
      RenamedAt(deg, k - 1, j);
    }
  }

  /** Visiting every node gives the renaming. */
  lemma {:induction false} RenamedAll(deg: seq<nat>)
    ensures Renamed(deg, |deg|) == Names(deg)
  {
    forall j | 0 <= j < |deg|
      ensures Renamed(deg, |deg|)[j] == Names(deg)[j]
    {
      RenamedAt(deg, |deg|, j);
    }
  }

  /** The renaming loop: every node of positive degree gets the next
      number, counted by `newN`. */
  method Rename(degree: array<nat>) returns (name: array<nat>, newN: nat)
    ensures fresh(name)
    ensures name[..] == Names(degree[..]) && newN == Rank(degree[..], degree.Length)
  {
    ghost var deg := degree[..];
    name := new nat[degree.Length](_ => 0);
    newN := 0;
    var k := 0;
    assert name[..] == Renamed(deg, 0);
    while k < degree.Length
      invariant 0 <= k <= degree.Length == name.Length
      invariant newN == Rank(deg, k)
      invariant name[..] == Renamed(deg, k)
      modifies name
    {
      ghost var before := name[..];
      if degree[k] > 0 {
        name[k] := newN;
        assert name[..] == before[k := newN];
        newN := newN + 1;
      }
      k := k + 1;
      assert name[..] == Renamed(deg, k);
    }
    RenamedAll(deg);
  }

  /** The output loop: rename both ends, swap them when the first is
      larger, and write them 1-based. */
  method WriteEdges(edges: seq<Edge>, name: array<nat>) returns (out: seq<Edge>)
    requires Within(name.Length, edges)
    ensures out == Output(edges, name[..])
  {
    ghost var names := name[..];
    out := [];
    var j := 0;
    while j < |edges|
      invariant 0 <= j <= |edges|
      invariant |out| == j
      invariant forall i :: 0 <= i < j ==> out[i] == Orient(names[edges[i].f], names[edges[i].t], edges[i].w)
    {
      var f := name[edges[j].f];
      var t := name[edges[j].t];
      var w := edges[j].w;
      ghost var oriented := Orient(f, t, w);
      if f > t {
        f, t := t, f;
      }
      assert Edge(f + 1, t + 1, w) == oriented;
      out := out + [Edge(f + 1, t + 1, w)];
      j := j + 1;
    }
  }

}
