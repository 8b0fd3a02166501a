/**
 * shortest_path(source, end_verts, verts): the greedy, tag-driven walk used to
 * cut a cylinder open. It expands from `source` over tagged vertices, always
 * stepping to the neighbour of least tentative distance, until every end
 * vertex has been stepped on or no tagged neighbour is left; then it picks the
 * end vertex of least distance and walks back over untagged vertices of
 * strictly smaller distance. Edge lengths are an input (`edgeLen`, one per
 * edge); distances are kept in a map like the source's `dist_lookup`.
 */
module ShortestPath {
  import opened Wrappers
  import opened HalfEdge
  import opened SeqFacts

  /** sys.float_info.max: the distance of a vertex not reached yet. */
  const FloatMax: real := 1.7976931348623157e308

  /** The vertex across the `i`-th edge of `c`. */
  function Neighbor(m: Mesh, c: nat, i: nat): (n: nat)
    requires m.Valid() && c < m.Verts() && i < |m.vertEdges[c]|
    ensures n < m.Verts() && n != c
    ensures m.Adjacent(c, n)
  {
    m.OtherVert(m.vertEdges[c][i], c)
  }

  /** The tagged vertices. */
  function TaggedSet(tag: seq<bool>): (r: set<nat>)
    ensures forall v: nat :: v in r <==> v < |tag| && tag[v]
  {
    set v: nat | v < |tag| && tag[v]
  }

  /** Tagged vertices left, plus one while the current vertex is untagged. */
  function Measure(tag: seq<bool>, current: nat): nat
  {
    |TaggedSet(tag)| + (if current < |tag| && tag[current] then 0 else 1)
  }

  /** Untagging the current vertex and moving to a tagged neighbour lowers the measure by one. */
  lemma MeasureStep(before: seq<bool>, c: nat, n: nat)
    requires c < |before| && n < |before| && n != c && before[n]
    ensures Measure(before[c := false], n) + 1 == Measure(before, c)
  {
    assert TaggedSet(before[c := false]) == TaggedSet(before) - {c};
  }

  /** The measure of the starting state is at least one. */
  lemma MeasurePositive(tag: seq<bool>, current: nat)
    ensures Measure(tag, current) >= 1
  {
    if current < |tag| && tag[current] {
      assert current in TaggedSet(tag);
    }
  }

  /** The first loop of shortest_path: tag (or untag) every vertex of `verts`. */
  method SetTags(tag: array<bool>, verts: seq<nat>, value: bool)
    requires forall i :: 0 <= i < |verts| ==> verts[i] < tag.Length
    modifies tag
    ensures forall v :: 0 <= v < tag.Length ==> tag[v] == if v in verts then value else old(tag[v])
  {
    for k := 0 to |verts|
      invariant forall v :: 0 <= v < tag.Length ==> tag[v] == if v in verts[..k] then value else old(tag[v])
    {
      tag[verts[k]] := value;
      assert verts[..k + 1] == verts[..k] + [verts[k]];
    }
    assert verts[..|verts|] == verts;
  }

  /** dist_lookup as first filled: `FloatMax` for every vertex of `verts`, then 0 for `source`. */
  method StartDistances(verts: seq<nat>, source: nat) returns (dist: map<nat, real>)
    ensures dist.Keys == Elems(verts) + {source}
    ensures dist[source] == 0.0
    ensures forall k :: k in dist && k != source ==> dist[k] == FloatMax
  {
    dist := map[];
    for k := 0 to |verts|
      invariant dist.Keys == Elems(verts[..k])
      invariant forall x :: x in dist ==> dist[x] == FloatMax
    {
      dist := dist[verts[k] := FloatMax];
      assert verts[..k + 1] == verts[..k] + [verts[k]];
    }
    assert verts[..|verts|] == verts;
    dist := dist[source := 0.0];
  }

  /** The vertices across the edges of `c`, in the order the mesh lists the edges. */
  function NeighborsOf(m: Mesh, c: nat): (r: seq<nat>)
    requires m.Valid() && c < m.Verts()
    ensures |r| == |m.vertEdges[c]|
    ensures forall i :: 0 <= i < |r| ==> r[i] == Neighbor(m, c, i) && r[i] < m.Verts() && r[i] != c
  {
    seq(|m.vertEdges[c]|, i requires 0 <= i < |m.vertEdges[c]| => Neighbor(m, c, i))
  }

  /** The lengths of the edges of `c`, in the same order. */
  function LengthsOf(m: Mesh, edgeLen: seq<real>, c: nat): (r: seq<real>)
    requires m.Valid() && c < m.Verts() && |edgeLen| == m.Edges()
    ensures |r| == |m.vertEdges[c]|
    ensures forall i :: 0 <= i < |r| ==> r[i] == edgeLen[m.vertEdges[c][i]]
  {
    seq(|m.vertEdges[c]|, i requires 0 <= i < |m.vertEdges[c]| => edgeLen[m.vertEdges[c][i]])
  }

  /** The distances offered through the edges of the current vertex: its distance plus an edge length. */
  ghost function Offers(lens: seq<real>, base: real): set<real>
  {
    set i | 0 <= i < |lens| :: base + lens[i]
  }

  /**
   * One scan of the expansion from vertex `c`, whose neighbours across its
   * edges are `nbrs` at edge lengths `lens`: relax every tagged neighbour,
   * and return the tagged neighbour of least tentative distance below
   * `FloatMax` (the first one on ties), if any. Tentative distances only
   * decrease, and a lowered one is the distance of `c` plus an edge length.
   */
  method Relax(tag: seq<bool>, nbrs: seq<nat>, lens: seq<real>, dist: map<nat, real>, c: nat)
    returns (nearest: Option<nat>, d: map<nat, real>)
    requires |lens| == |nbrs| && c in dist
    requires forall i :: 0 <= i < |nbrs| ==> nbrs[i] < |tag| && nbrs[i] != c
    requires forall v :: 0 <= v < |tag| && tag[v] ==> v in dist
    ensures d.Keys == dist.Keys && d[c] == dist[c]
    ensures forall k :: k in d ==> d[k] <= dist[k]
    ensures forall k :: k in d ==> d[k] == dist[k] || d[k] in Offers(lens, dist[c])
    ensures forall i :: 0 <= i < |nbrs| && tag[nbrs[i]] ==> d[nbrs[i]] <= dist[c] + lens[i]
    ensures nearest.None? <==> forall i :: 0 <= i < |nbrs| && tag[nbrs[i]] ==> d[nbrs[i]] >= FloatMax
    ensures nearest.Some? ==>
      && nearest.value in nbrs && tag[nearest.value] && nearest.value in d && d[nearest.value] < FloatMax
      && forall i :: 0 <= i < |nbrs| && tag[nbrs[i]] ==> d[nearest.value] <= d[nbrs[i]]
  {
    d := dist;
    nearest := None;
    var smallest := FloatMax;
    for i := 0 to |nbrs|
      invariant d.Keys == dist.Keys && d[c] == dist[c]
      invariant forall k :: k in d ==> d[k] <= dist[k]
      invariant forall k :: k in d ==> d[k] == dist[k] || d[k] in Offers(lens, dist[c])
      invariant forall j :: 0 <= j < i && tag[nbrs[j]] ==> d[nbrs[j]] <= dist[c] + lens[j]
      invariant forall j :: 0 <= j < i && tag[nbrs[j]] ==> smallest <= d[nbrs[j]]
      invariant nearest.None? ==> smallest == FloatMax
      invariant nearest.Some? ==>
        nearest.value in nbrs && tag[nearest.value] && nearest.value in d && d[nearest.value] <= smallest < FloatMax
    {
      var n := nbrs[i];
      if tag[n] {
        var tentative := d[c] + lens[i];
        if tentative < d[n] {
          assert tentative in Offers(lens, dist[c]);
          d := d[n := tentative];
        } else {
          tentative := d[n];
        }
        if tentative < smallest {
          smallest := tentative;
          nearest := Some(n);
        }
      }
    }
  }

  /**
   * The expansion loop of shortest_path. Each step untags the current vertex
   * and moves to a tagged neighbour, so the number of steps is bounded by the
   * measure of the starting state; distances stay between 0 and where they
   * started, and the source keeps distance 0.
   */
  method Expand(m: Mesh, tag: array<bool>, edgeLen: seq<real>, d0: map<nat, real>, source: nat, ends: seq<nat>)
    returns (d: map<nat, real>, ghost steps: nat)
    requires m.Valid() && tag.Length == m.Verts() && |edgeLen| == m.Edges()
    requires forall e :: 0 <= e < |edgeLen| ==> edgeLen[e] >= 0.0
    requires source < m.Verts() && source in d0 && d0[source] == 0.0
    requires forall k :: k in d0 ==> 0.0 <= d0[k]
    requires forall v :: 0 <= v < m.Verts() && tag[v] ==> v in d0
    modifies tag
    ensures d.Keys == d0.Keys && d[source] == 0.0
    ensures forall k :: k in d ==> 0.0 <= d[k] <= d0[k]
    ensures forall v :: 0 <= v < tag.Length && tag[v] ==> old(tag[v])
    ensures steps < Measure(old(tag[..]), source)
  {
    d := d0;
    var inner := Elems(ends);
    var current := source;
    steps := 0;
    while inner != {}
      invariant current < m.Verts() && current in d && d[current] < FloatMax
      invariant d.Keys == d0.Keys && d[source] == 0.0
      invariant forall k :: k in d ==> 0.0 <= d[k] <= d0[k]
      invariant forall v :: 0 <= v < tag.Length && tag[v] ==> old(tag[v])
      invariant steps + Measure(tag[..], current) <= Measure(old(tag[..]), source)
      decreases Measure(tag[..], current)
    {
      var nearest, d' := Relax(tag[..], NeighborsOf(m, current), LengthsOf(m, edgeLen, current), d, current);
      d := d';
      if nearest.None? {
        break;
      }
      ghost var before := tag[..];
      tag[current] := false;
      assert tag[..] == before[current := false];
      MeasureStep(before, current, nearest.value);
      current := nearest.value;
      inner := inner - {current};
      steps := steps + 1;
    }
    MeasurePositive(tag[..], current);
  }

  /**
   * The end vertex of least distance below `FloatMax`, the first one on ties;
   * None when no end vertex was reached.
   */
  method NearestEnd(dist: map<nat, real>, ends: seq<nat>) returns (r: Option<nat>)
    requires forall i :: 0 <= i < |ends| ==> ends[i] in dist
    ensures r.None? <==> forall i :: 0 <= i < |ends| ==> dist[ends[i]] >= FloatMax
    ensures r.Some? ==> exists i :: 0 <= i < |ends| && ends[i] == r.value
                          && forall j :: 0 <= j < i ==> dist[ends[j]] > dist[r.value]
    ensures r.Some? ==> r.value in dist && dist[r.value] < FloatMax
                          && forall i :: 0 <= i < |ends| ==> dist[r.value] <= dist[ends[i]]
  {
    var minDist := FloatMax;
    r := None;
    for i := 0 to |ends|
      invariant r.None? ==> minDist == FloatMax
      invariant forall j :: 0 <= j < i ==> minDist <= dist[ends[j]]
      invariant r.Some? ==> r.value in dist && dist[r.value] == minDist < FloatMax
      invariant r.Some? ==> exists k :: 0 <= k < i && ends[k] == r.value
                              && forall j :: 0 <= j < k ==> dist[ends[j]] > dist[r.value]
    {
      if dist[ends[i]] < minDist {
        minDist := dist[ends[i]];
        r := Some(ends[i]);
      }
    }
  }

  /** A vertex the backward walk may step to from `v`. */
  ghost predicate Candidate(tag: seq<bool>, dist: map<nat, real>, v: nat, n: nat)
    requires v in dist
  {
    n < |tag| && !tag[n] && n in dist && dist[n] < FloatMax && dist[n] < dist[v]
  }

  /** No neighbour of `v` is a candidate: the backward walk stops at `v`. */
  ghost predicate Stuck(m: Mesh, tag: seq<bool>, dist: map<nat, real>, v: nat)
    requires m.Valid() && v < m.Verts() && v in dist
  {
    forall i :: 0 <= i < |m.vertEdges[v]| ==> !Candidate(tag, dist, v, Neighbor(m, v, i))
  }

  /**
   * One step of the backward walk: among the untagged neighbours of `v` that
   * have a distance (the others raise KeyError and are skipped), the first
   * one of least distance, provided it is below that of `v`.
   */
  method PrevNeighbor(m: Mesh, tag: seq<bool>, dist: map<nat, real>, v: nat) returns (p: Option<nat>)
    requires m.Valid() && |tag| == m.Verts() && v < m.Verts() && v in dist
    ensures p.None? <==> Stuck(m, tag, dist, v)
    ensures p.Some? ==> Candidate(tag, dist, v, p.value) && m.Adjacent(v, p.value)
    ensures p.Some? ==> exists i :: 0 <= i < |m.vertEdges[v]| && Neighbor(m, v, i) == p.value
    ensures p.Some? ==> forall i :: 0 <= i < |m.vertEdges[v]| && Candidate(tag, dist, v, Neighbor(m, v, i))
                          ==> dist[p.value] <= dist[Neighbor(m, v, i)]
  {
    var minDist := FloatMax;
    p := None;
    for i := 0 to |m.vertEdges[v]|
      invariant p.None? ==> minDist == FloatMax
      invariant p.None? ==> forall j :: 0 <= j < i ==> !Candidate(tag, dist, v, Neighbor(m, v, j))
      invariant p.Some? ==> Candidate(tag, dist, v, p.value) && m.Adjacent(v, p.value) && dist[p.value] == minDist
      invariant p.Some? ==> exists j :: 0 <= j < i && Neighbor(m, v, j) == p.value
      invariant forall j :: 0 <= j < i && Candidate(tag, dist, v, Neighbor(m, v, j)) ==> minDist <= dist[Neighbor(m, v, j)]
    {
      var n := Neighbor(m, v, i);
      if tag[n] {
        continue;
      }
      if n in dist && dist[n] < minDist && dist[n] < dist[v] {
        minDist := dist[n];
        p := Some(n);
      }
    }
  }

  /** The vertices whose distance is below `x`. */
  function Below(dist: map<nat, real>, x: real): set<nat>
  {
    set k | k in dist.Keys && dist[k] < x
  }

  /** Stepping to a vertex of smaller distance leaves fewer vertices below. */
  lemma BelowShrinks(dist: map<nat, real>, x: nat, y: nat)
    requires x in dist && y in dist && dist[y] < dist[x]
    ensures |Below(dist, dist[y])| < |Below(dist, dist[x])|
  {
    assert Below(dist, dist[y]) <= Below(dist, dist[x]) - {y};
    SubsetCard(Below(dist, dist[y]), Below(dist, dist[x]) - {y});
  }

  /** Every vertex of `walk` lies one edge before the next, at strictly larger distance. */
  ghost predicate Chain(m: Mesh, tag: seq<bool>, dist: map<nat, real>, walk: seq<nat>)
    requires m.Valid() && forall i :: 0 <= i < |walk| ==> walk[i] < m.Verts() && walk[i] in dist
  {
    forall i :: 0 <= i < |walk| - 1 ==> Candidate(tag, dist, walk[i], walk[i + 1]) && m.Adjacent(walk[i], walk[i + 1])
  }

  /** A chain extended by a candidate neighbour of its last vertex is a chain. */
  lemma ChainSnoc(m: Mesh, tag: seq<bool>, dist: map<nat, real>, walk: seq<nat>, p: nat)
    requires m.Valid() && forall i :: 0 <= i < |walk| ==> walk[i] < m.Verts() && walk[i] in dist
    requires walk != [] && p < m.Verts() && p in dist
    requires Chain(m, tag, dist, walk)
    requires Candidate(tag, dist, walk[|walk| - 1], p) && m.Adjacent(walk[|walk| - 1], p)
    ensures Chain(m, tag, dist, walk + [p])
  {
    var w := walk + [p];
    forall i | 0 <= i < |w| - 1
      ensures Candidate(tag, dist, w[i], w[i + 1]) && m.Adjacent(w[i], w[i + 1])
    {
      if i < |walk| - 1 {
        assert w[i] == walk[i] && w[i + 1] == walk[i + 1];
      }
    }
  }

  /**
   * The backward walk, from `start` until `source` is reached or no
   * candidate is left. Every vertex of the walk lies one edge before the
   * next, at strictly larger distance; the walk stops either beside the
   * source or where no candidate exists.
   */
  method WalkBack(m: Mesh, tag: seq<bool>, dist: map<nat, real>, source: nat, start: nat)
    returns (walk: seq<nat>)
    requires m.Valid() && |tag| == m.Verts() && start < m.Verts() && start in dist
    ensures walk == [] <==> start == source
    ensures walk != [] ==> walk[0] == start
    ensures forall i :: 0 <= i < |walk| ==> walk[i] < m.Verts() && walk[i] in dist && walk[i] != source
    ensures Chain(m, tag, dist, walk)
    ensures walk != [] ==>
      || (Candidate(tag, dist, walk[|walk| - 1], source) && m.Adjacent(walk[|walk| - 1], source))
      || Stuck(m, tag, dist, walk[|walk| - 1])
  {
    walk := [];
    var current := start;
    while current != source
      invariant current < m.Verts() && current in dist
      invariant walk == [] ==> current == start
      invariant walk != [] ==> walk[0] == start
      invariant forall i :: 0 <= i < |walk| ==> walk[i] < m.Verts() && walk[i] in dist && walk[i] != source
      invariant Chain(m, tag, dist, walk + [current])
      decreases |Below(dist, dist[current])|
    {
      var p := PrevNeighbor(m, tag, dist, current);
      walk := walk + [current];
      if p.None? {
        return;
      }
      ChainSnoc(m, tag, dist, walk, p.value);
      BelowShrinks(dist, current, p.value);
      current := p.value;
    }
    assert walk != [] ==> (walk + [source])[|walk| - 1] == walk[|walk| - 1] && (walk + [source])[|walk|] == source;
    assert Chain(m, tag, dist, walk) by {
      forall i | 0 <= i < |walk| - 1
        ensures Candidate(tag, dist, walk[i], walk[i + 1]) && m.Adjacent(walk[i], walk[i + 1])
      {
        assert (walk + [source])[i] == walk[i] && (walk + [source])[i + 1] == walk[i + 1];
      }
    }
  }

  /** The walk reversed behind the source: distances increase along it, one edge at a time. */
  lemma ReversedChain(m: Mesh, tag: seq<bool>, dist: map<nat, real>, walk: seq<nat>, source: nat, path: seq<nat>)
    requires m.Valid() && source < m.Verts() && source in dist
    requires forall i :: 0 <= i < |walk| ==> walk[i] < m.Verts() && walk[i] in dist
    requires Chain(m, tag, dist, walk)
    requires path == Reverse(walk + [source])
    ensures |path| == |walk| + 1 && path[0] == source && (walk != [] ==> path[|path| - 1] == walk[0])
    ensures forall i :: 0 <= i < |path| ==> path[i] < m.Verts() && path[i] in dist
    ensures forall i :: 1 <= i < |path| - 1 ==> dist[path[i]] < dist[path[i + 1]] && m.Adjacent(path[i + 1], path[i])
  {
    assert forall i :: 1 <= i < |path| ==> path[i] == walk[|walk| - i];
    forall i | 1 <= i < |path| - 1
      ensures dist[path[i]] < dist[path[i + 1]] && m.Adjacent(path[i + 1], path[i])
    {
      var k := |walk| - i - 1;
      assert path[i + 1] == walk[k] && path[i] == walk[k + 1];
      assert Candidate(tag, dist, walk[k], walk[k + 1]);
    }
  }

  /**
   * shortest_path. Returns [] when no end vertex got a distance below
   * `FloatMax` (the tags of `verts` are then left as the expansion left
   * them). Otherwise the path starts at `source`, ends at the nearest end
   * vertex, and after the source its vertices are joined by edges with
   * strictly increasing distances; all tags are cleared. The ghost results
   * expose the final distances and the number of expansion steps, which
   * never exceeds the number of vertices.
   */
  method ShortestPath(m: Mesh, tag: array<bool>, edgeLen: seq<real>, source: nat, endVerts: seq<nat>, verts: seq<nat>)
    returns (path: seq<nat>, ghost dist: map<nat, real>, ghost steps: nat)
    requires m.Valid() && tag.Length == m.Verts() && |edgeLen| == m.Edges()
    requires forall e :: 0 <= e < |edgeLen| ==> edgeLen[e] >= 0.0
    requires source < m.Verts() && forall i :: 0 <= i < |verts| ==> verts[i] < m.Verts()
    requires forall i :: 0 <= i < |endVerts| ==> endVerts[i] in verts || endVerts[i] == source
    requires forall v :: 0 <= v < m.Verts() && tag[v] ==> v in verts
    modifies tag
    ensures dist.Keys == Elems(verts) + {source} && dist[source] == 0.0
    ensures forall k :: k in dist ==> 0.0 <= dist[k] <= FloatMax
    ensures steps <= |verts|
    ensures forall i :: 0 <= i < |path| ==> path[i] < m.Verts() && path[i] in dist
    ensures path == [] <==> forall i :: 0 <= i < |endVerts| ==> dist[endVerts[i]] >= FloatMax
    ensures path != [] ==> path[0] == source && path[|path| - 1] in endVerts
    ensures path != [] ==> dist[path[|path| - 1]] < FloatMax
                           && forall i :: 0 <= i < |endVerts| ==> dist[path[|path| - 1]] <= dist[endVerts[i]]
    ensures forall i :: 1 <= i < |path| - 1 ==> dist[path[i]] < dist[path[i + 1]] && m.Adjacent(path[i + 1], path[i])
    ensures path != [] ==> forall v :: 0 <= v < m.Verts() ==> !tag[v]
    ensures forall v :: 0 <= v < m.Verts() && v !in verts ==> !tag[v]
  {
    SetTags(tag, verts, true);
    assert TaggedSet(tag[..]) == Elems(verts);
    ElemsBound(verts);
    var d0 := StartDistances(verts, source);
    var d;
    d, steps := Expand(m, tag, edgeLen, d0, source, endVerts);
    dist := d;
    var nearest := NearestEnd(d, endVerts);
    if nearest.None? {
      return [], dist, steps;
    }
    var walk := WalkBack(m, tag[..], d, source, nearest.value);
    path := Reverse(walk + [source]);
    ReversedChain(m, tag[..], d, walk, source, path);
    SetTags(tag, verts, false);
  }
}
