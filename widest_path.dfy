/** The min-max path search that decompose runs with LEMON's Dijkstra and
    DijkstraMinMaxOperationTraits: the cost of a walk is the largest residual
    (total_flow - flow) among its arcs, and the search minimises that cost.
    The search here tries the residual of every live arc as a threshold and
    keeps the smallest threshold under which the sink is reachable. */
module WidestPath {
  import opened FlowGraph

  /** Largest residual total - flow along the non-empty walk p. */
  function MaxResidual(arcs: seq<Option<Arc>>, p: seq<nat>, total: real): real
    requires |p| > 0 && AllLive(arcs, p)
  {
    var r := total - arcs[p[0]].value.flow;
    if |p| == 1 then r
    else
      var rest := MaxResidual(arcs, p[1..], total);
      if r >= rest then r else rest
  }

  /** Smallest flow along the non-empty walk p: the flow the walk can carry. */
  function Bottleneck(arcs: seq<Option<Arc>>, p: seq<nat>): real
    requires |p| > 0 && AllLive(arcs, p)
  {
    var f := arcs[p[0]].value.flow;
    if |p| == 1 then f
    else
      var rest := Bottleneck(arcs, p[1..]);
      if f <= rest then f else rest
  }

  /** Every arc of p has residual at most t. */
  predicate Within(arcs: seq<Option<Arc>>, p: seq<nat>, total: real, t: real) {
    forall k :: 0 <= k < |p| ==> p[k] < |arcs| && arcs[p[k]].Some? && total - arcs[p[k]].value.flow <= t
  }

  /** No walk from s to v keeps every residual at most t. */
  ghost predicate NoWalkWithin(arcs: seq<Option<Arc>>, s: nat, v: nat, total: real, t: real) {
    forall p :: IsWalk(arcs, p, s, v) ==> !Within(arcs, p, total, t)
  }

  /** Every live arc with residual at most t that leaves R ends in R. */
  predicate Closed(arcs: seq<Option<Arc>>, R: set<nat>, total: real, t: real) {
    ClosedBelow(arcs, R, total, t, |arcs|)
  }

  /** Closed, for the arcs with ids below m. */
  predicate ClosedBelow(arcs: seq<Option<Arc>>, R: set<nat>, total: real, t: real, m: nat)
    requires m <= |arcs|
  {
    forall j :: 0 <= j < m && arcs[j].Some? && arcs[j].value.tail in R && total - arcs[j].value.flow <= t
      ==> arcs[j].value.head in R
  }

  /** An arc that does not lead out of R under the threshold extends the
      closed prefix by one. */
  lemma {:induction false} ClosedBelowStep(arcs: seq<Option<Arc>>, R: set<nat>, total: real, t: real, m: nat)
    requires m < |arcs| && ClosedBelow(arcs, R, total, t, m)
    requires arcs[m].Some? && arcs[m].value.tail in R && total - arcs[m].value.flow <= t ==> arcs[m].value.head in R
    ensures ClosedBelow(arcs, R, total, t, m + 1)
  {
  }

  /** The largest residual is the remaining flow minus the bottleneck: the
      min-max search finds the walk whose weakest arc carries the most flow. */
  lemma {:induction false} MaxResidualIsBottleneck(arcs: seq<Option<Arc>>, p: seq<nat>, total: real)
    requires |p| > 0 && AllLive(arcs, p)
    ensures MaxResidual(arcs, p, total) == total - Bottleneck(arcs, p)
  {
    if |p| > 1 {
      MaxResidualIsBottleneck(arcs, p[1..], total);
    }
  }

  /** The largest residual is the residual of one of the walk's arcs, and
      bounds all of them. */
  lemma {:induction false} MaxResidualAttained(arcs: seq<Option<Arc>>, p: seq<nat>, total: real)
    requires |p| > 0 && AllLive(arcs, p)
    ensures Within(arcs, p, total, MaxResidual(arcs, p, total))
    ensures exists k :: 0 <= k < |p| && MaxResidual(arcs, p, total) == total - arcs[p[k]].value.flow
  {
    if |p| > 1 {
      MaxResidualAttained(arcs, p[1..], total);
      var k :| 0 <= k < |p[1..]| && MaxResidual(arcs, p[1..], total) == total - arcs[p[1..][k]].value.flow;
      if MaxResidual(arcs, p, total) != total - arcs[p[0]].value.flow {
        assert MaxResidual(arcs, p, total) == total - arcs[p[k + 1]].value.flow;
      }
    }
  }

  /** The bottleneck is the flow of one of the walk's arcs, and no arc of
      the walk carries less. */
  lemma {:induction false} BottleneckAttained(arcs: seq<Option<Arc>>, p: seq<nat>)
    requires |p| > 0 && AllLive(arcs, p)
    ensures forall k :: 0 <= k < |p| ==> Bottleneck(arcs, p) <= arcs[p[k]].value.flow
    ensures exists k :: 0 <= k < |p| && Bottleneck(arcs, p) == arcs[p[k]].value.flow
  {
    if |p| > 1 {
      var rest := p[1..];
      BottleneckAttained(arcs, rest);
      var k :| 0 <= k < |rest| && Bottleneck(arcs, rest) == arcs[rest[k]].value.flow;
      if Bottleneck(arcs, p) != arcs[p[0]].value.flow {
        assert Bottleneck(arcs, p) == arcs[p[k + 1]].value.flow;
      }
      forall i | 1 <= i < |p| ensures Bottleneck(arcs, p) <= arcs[p[i]].value.flow {
        assert p[i] == rest[i - 1];
      }
    }
  }

  /** A walk that stays under the threshold never leaves a closed set. */
  lemma {:induction false} WalkStaysInClosed(arcs: seq<Option<Arc>>, R: set<nat>, total: real, t: real, p: seq<nat>, u: nat, v: nat)
    requires u in R && IsWalk(arcs, p, u, v) && Within(arcs, p, total, t) && Closed(arcs, R, total, t)
    ensures v in R
  {
    if p != [] {
      var k := 0;
      while k < |p|
        invariant 0 <= k <= |p|
        invariant k > 0 ==> arcs[p[k - 1]].value.head in R
      {
        k := k + 1;
      }
    }
  }

  /** A set of nodes below n has at most n members. */
  lemma {:induction false} CardBelow(s: set<nat>, n: nat)
    requires forall v :: v in s ==> v < n
    ensures |s| <= n
  {
    if n > 0 {
      CardBelow(s - {n - 1}, n - 1);
    } else {
      assert s == {};
    }
  }

  /** Every discovered node v is below n and carries a simple walk from
      source under the threshold. */
  ghost predicate WalksOk(arcs: seq<Option<Arc>>, n: nat, source: nat, total: real, t: real, paths: map<nat, seq<nat>>) {
    forall v {:trigger paths[v]} :: v in paths ==>
      v < n && IsWalk(arcs, paths[v], source, v) && Simple(arcs, paths[v], v) && Within(arcs, paths[v], total, t)
  }

  /** Every node that a discovered walk passes through is discovered. */
  ghost predicate NodesKnown(arcs: seq<Option<Arc>>, paths: map<nat, seq<nat>>) {
    forall v, k :: v in paths && 0 <= k < |paths[v]| ==>
      paths[v][k] < |arcs| && arcs[paths[v][k]].Some? &&
      arcs[paths[v][k]].value.tail in paths && arcs[paths[v][k]].value.head in paths
  }

  /** The search state of Reach. */
  ghost predicate PathsOk(arcs: seq<Option<Arc>>, n: nat, source: nat, total: real, t: real, paths: map<nat, seq<nat>>) {
    source in paths && WalksOk(arcs, n, source, total, t, paths) && NodesKnown(arcs, paths)
  }

  /** A simple walk to u under the threshold, whose tails lie in the set S,
      followed by one more arc under the threshold from u to a node outside S,
      is a simple walk under the threshold. */
  lemma {:induction false} ExtendWalk(arcs: seq<Option<Arc>>, S: set<nat>, source: nat, total: real, t: real, p: seq<nat>, j: nat)
    requires j < |arcs| && arcs[j].Some? && arcs[j].value.tail in S && arcs[j].value.head !in S
    requires total - arcs[j].value.flow <= t
    requires IsWalk(arcs, p, source, arcs[j].value.tail) && Simple(arcs, p, arcs[j].value.tail) && Within(arcs, p, total, t)
    requires forall k :: 0 <= k < |p| ==> arcs[p[k]].value.tail in S
    ensures IsWalk(arcs, p + [j], source, arcs[j].value.head)
    ensures Simple(arcs, p + [j], arcs[j].value.head)
    ensures Within(arcs, p + [j], total, t)
  {
    var q := p + [j];
    assert IsWalk(arcs, q, source, arcs[j].value.head);
    forall k | 0 <= k < |p| ensures q[k] == p[k] {
    }
  }

  /** Following one more arc under the threshold out of the discovered set
      keeps the search state. */
  lemma {:induction false} Extend(arcs: seq<Option<Arc>>, n: nat, source: nat, total: real, t: real, paths: map<nat, seq<nat>>, j: nat)
    requires ArcsWithin(arcs, n) && PathsOk(arcs, n, source, total, t, paths)
    requires j < |arcs| && arcs[j].Some? && arcs[j].value.tail in paths && arcs[j].value.head !in paths
    requires total - arcs[j].value.flow <= t
    ensures PathsOk(arcs, n, source, total, t, paths[arcs[j].value.head := paths[arcs[j].value.tail] + [j]])
  {
    var a := arcs[j].value;
    var p: seq<nat> := paths[a.tail];
    ExtendWalk(arcs, paths.Keys, source, total, t, p, j);
    ExtendWalks(arcs, n, source, total, t, paths, a.head, p + [j]);
    ExtendNodes(arcs, paths, a.tail, a.head, j);
  }

  /** Adding a node below n with a simple walk under the threshold keeps
      every discovered node's walk one. */
  lemma {:induction false} ExtendWalks(arcs: seq<Option<Arc>>, n: nat, source: nat, total: real, t: real,
                    paths: map<nat, seq<nat>>, h: nat, q: seq<nat>)
    requires WalksOk(arcs, n, source, total, t, paths)
    requires h < n && IsWalk(arcs, q, source, h) && Simple(arcs, q, h) && Within(arcs, q, total, t)
    ensures WalksOk(arcs, n, source, total, t, paths[h := q])
  {
    var paths' := paths[h := q];
    forall v | v in paths'
      ensures v < n && IsWalk(arcs, paths'[v], source, v) && Simple(arcs, paths'[v], v) && Within(arcs, paths'[v], total, t)
    {
      if v != h {
        assert paths'[v] == paths[v];
      }
    }
  }

  /** Every node of every walk in the map stays discovered when one more
      walk, through a discovered node's walk and one arc, is added. */
  lemma {:induction false} ExtendNodes(arcs: seq<Option<Arc>>, paths: map<nat, seq<nat>>, u: nat, h: nat, j: nat)
    requires u in paths && j < |arcs| && arcs[j].Some? && arcs[j].value.tail == u && arcs[j].value.head == h
    requires NodesKnown(arcs, paths)
    ensures NodesKnown(arcs, paths[h := paths[u] + [j]])
  {
    var p := paths[u];
    var paths' := paths[h := p + [j]];
    forall v, k | v in paths' && 0 <= k < |paths'[v]|
      ensures paths'[v][k] < |arcs| && arcs[paths'[v][k]].Some? &&
        arcs[paths'[v][k]].value.tail in paths' && arcs[paths'[v][k]].value.head in paths'
    {
      if v == h {
        if k < |p| {
          assert paths'[v][k] == p[k];
        }
      } else {
        assert paths'[v] == paths[v];
      }
    }
  }

  /** The nodes reachable from source over live arcs whose residual is at most
      t, each with a simple walk that reaches it. */
  method Reach(arcs: seq<Option<Arc>>, n: nat, source: nat, total: real, t: real)
    returns (paths: map<nat, seq<nat>>)
    requires ArcsWithin(arcs, n) && source < n
    ensures source in paths
    ensures forall v {:trigger paths[v]} :: v in paths ==>
      v < n && IsWalk(arcs, paths[v], source, v) && Simple(arcs, paths[v], v) && Within(arcs, paths[v], total, t)
    ensures Closed(arcs, paths.Keys, total, t)
  {
    paths := map[source := []];
    var changed := true;
    CardBelow(paths.Keys, n);
    while changed
      invariant PathsOk(arcs, n, source, total, t, paths)
      invariant |paths| <= n
      invariant !changed ==> Closed(arcs, paths.Keys, total, t)
      decreases n - |paths|, changed
    {
      paths, changed := Sweep(arcs, n, source, total, t, paths);
      CardBelow(paths.Keys, n);
    }
  }

  /** One pass over the arcs in id order: every arc under the threshold that
      leads from a discovered node to an undiscovered one discovers its head.
      A pass that discovers nothing shows the discovered set closed. */
  method Sweep(arcs: seq<Option<Arc>>, n: nat, source: nat, total: real, t: real, paths: map<nat, seq<nat>>)
    returns (paths': map<nat, seq<nat>>, changed: bool)
    requires ArcsWithin(arcs, n) && PathsOk(arcs, n, source, total, t, paths)
    ensures PathsOk(arcs, n, source, total, t, paths')
    ensures changed ==> |paths'| > |paths|
    ensures !changed ==> paths' == paths && Closed(arcs, paths.Keys, total, t)
  {
    paths' := paths;
    changed := false;
    var j := 0;
    while j < |arcs|
      invariant 0 <= j <= |arcs|
      invariant PathsOk(arcs, n, source, total, t, paths')
      invariant !changed ==> paths' == paths
      invariant changed ==> |paths'| > |paths|
      invariant !changed ==> ClosedBelow(arcs, paths.Keys, total, t, j)
    {
      var grew;
      paths', grew := Visit(arcs, n, source, total, t, paths', j);
      if grew {
        changed := true;
      } else if !changed {
        ClosedBelowStep(arcs, paths.Keys, total, t, j);
      }
      j := j + 1;
    }
  }

  /** Arc j discovers its head when it leaves a discovered node for an
      undiscovered one with residual at most t. */
  method Visit(arcs: seq<Option<Arc>>, n: nat, source: nat, total: real, t: real, paths: map<nat, seq<nat>>, j: nat)
    returns (paths': map<nat, seq<nat>>, grew: bool)
    requires ArcsWithin(arcs, n) && PathsOk(arcs, n, source, total, t, paths) && j < |arcs|
    ensures PathsOk(arcs, n, source, total, t, paths')
    ensures grew ==> |paths'| == |paths| + 1
    ensures !grew ==> paths' == paths
    ensures !grew && arcs[j].Some? && arcs[j].value.tail in paths && total - arcs[j].value.flow <= t ==>
      arcs[j].value.head in paths
  {
    paths', grew := paths, false;
    if arcs[j].Some? && arcs[j].value.tail in paths && arcs[j].value.head !in paths &&
       total - arcs[j].value.flow <= t
    {
      var a := arcs[j].value;
      var prefix: seq<nat> := paths[a.tail];
      var walk: seq<nat> := prefix + [j];
      Extend(arcs, n, source, total, t, paths, j);
      MapGrows(paths, a.head, walk);
      paths', grew := paths[a.head := walk], true;
    }
  }

  /** Adding a new key grows a map by one. */
  lemma MapGrows(m: map<nat, seq<nat>>, k: nat, x: seq<nat>)
    requires k !in m
    ensures |m[k := x]| == |m| + 1
  {
    assert m[k := x].Keys == m.Keys + {k};
  }

  /** Every live arc below m has been tried as a threshold: either the walk
      found so far is at least as good, or no walk stays under it. */
  ghost predicate Settled(arcs: seq<Option<Arc>>, source: nat, sink: nat, total: real, found: bool, dist: real, m: nat)
    requires m <= |arcs|
  {
    forall j :: 0 <= j < m && arcs[j].Some? ==>
      (found && dist <= total - arcs[j].value.flow) || NoWalkWithin(arcs, source, sink, total, total - arcs[j].value.flow)
  }

  /** Trying arc m as a threshold, without making the walk worse, extends
      the settled prefix. */
  lemma {:induction false} SettledStep(arcs: seq<Option<Arc>>, source: nat, sink: nat, total: real,
                    found: bool, dist: real, found': bool, dist': real, m: nat)
    requires m < |arcs| && Settled(arcs, source, sink, total, found, dist, m)
    requires found ==> found' && dist' <= dist
    requires arcs[m].Some? ==>
      (found' && dist' <= total - arcs[m].value.flow) || NoWalkWithin(arcs, source, sink, total, total - arcs[m].value.flow)
    ensures Settled(arcs, source, sink, total, found', dist', m + 1)
  {
  }

  /** The min-max search from source to sink: on success a simple walk whose
      largest residual dist is the least over all walks from source to sink.
      When sink cannot be reached the walk is empty and dist is 0.0, the value
      LEMON's freshly built distance map holds for an unreached node. */
  method WidestPath(arcs: seq<Option<Arc>>, n: nat, source: nat, sink: nat, total: real)
    returns (found: bool, path: seq<nat>, dist: real)
    requires ArcsWithin(arcs, n) && source < n && sink < n && source != sink
    ensures found ==> IsWalk(arcs, path, source, sink) && |path| > 0 && Simple(arcs, path, sink)
    ensures found ==> dist == MaxResidual(arcs, path, total)
    ensures found ==> forall p :: IsWalk(arcs, p, source, sink) ==> |p| > 0 && dist <= MaxResidual(arcs, p, total)
    ensures !found ==> path == [] && dist == 0.0 && forall p :: !IsWalk(arcs, p, source, sink)
  {
    found, path, dist := false, [], 0.0;
    var i := 0;
    while i < |arcs|
      invariant 0 <= i <= |arcs|
      invariant found ==> IsWalk(arcs, path, source, sink) && Simple(arcs, path, sink) && Within(arcs, path, total, dist)
      invariant !found ==> path == [] && dist == 0.0
      invariant Settled(arcs, source, sink, total, found, dist, i)
    {
      found, path, dist := TryThreshold(arcs, n, source, sink, total, i, found, path, dist);
      i := i + 1;
    }
    SettledOptimal(arcs, source, sink, total, found, dist);
    if found {
      SettledExact(arcs, source, sink, total, path, dist);
    }
  }

  /** Arc i's residual tried as a threshold: when the sink is reached under
      it and it beats the best so far, the walk found becomes the best. */
  method TryThreshold(arcs: seq<Option<Arc>>, n: nat, source: nat, sink: nat, total: real, i: nat,
                      found: bool, path: seq<nat>, dist: real)
    returns (found': bool, path': seq<nat>, dist': real)
    requires ArcsWithin(arcs, n) && source < n && sink < n && i < |arcs|
    requires found ==> IsWalk(arcs, path, source, sink) && Simple(arcs, path, sink) && Within(arcs, path, total, dist)
    requires !found ==> path == [] && dist == 0.0
    requires Settled(arcs, source, sink, total, found, dist, i)
    ensures found' ==> IsWalk(arcs, path', source, sink) && Simple(arcs, path', sink) && Within(arcs, path', total, dist')
    ensures !found' ==> path' == [] && dist' == 0.0
    ensures Settled(arcs, source, sink, total, found', dist', i + 1)
  {
    found', path', dist' := found, path, dist;
    if arcs[i].Some? {
      var t := total - arcs[i].value.flow;
      var paths := Reach(arcs, n, source, total, t);
      if sink in paths {
        if !found || t < dist {
          found', path', dist' := true, paths[sink], t;
        }
      } else {
        forall p | IsWalk(arcs, p, source, sink) ensures !Within(arcs, p, total, t) {
          if Within(arcs, p, total, t) {
            WalkStaysInClosed(arcs, paths.Keys, total, t, p, source, sink);
          }
        }
      }
    }
    SettledStep(arcs, source, sink, total, found, dist, found', dist', i);
  }

  /** Once every arc has been tried, every walk from source to sink is
      non-empty, was found, and has a largest residual of at least dist. */
  lemma SettledOptimal(arcs: seq<Option<Arc>>, source: nat, sink: nat, total: real, found: bool, dist: real)
    requires source != sink && Settled(arcs, source, sink, total, found, dist, |arcs|)
    ensures forall p :: IsWalk(arcs, p, source, sink) ==> |p| > 0 && found && dist <= MaxResidual(arcs, p, total)
  {
    forall p | IsWalk(arcs, p, source, sink) ensures |p| > 0 && found && dist <= MaxResidual(arcs, p, total) {
      MaxResidualAttained(arcs, p, total);
      var k :| 0 <= k < |p| && MaxResidual(arcs, p, total) == total - arcs[p[k]].value.flow;
      assert Within(arcs, p, total, total - arcs[p[k]].value.flow);
    }
  }

  /** The walk found stays within dist and, being settled, no walk does
      better: its largest residual is dist exactly. */
  lemma SettledExact(arcs: seq<Option<Arc>>, source: nat, sink: nat, total: real, path: seq<nat>, dist: real)
    requires source != sink && IsWalk(arcs, path, source, sink) && Within(arcs, path, total, dist)
    requires forall p :: IsWalk(arcs, p, source, sink) ==> |p| > 0 && dist <= MaxResidual(arcs, p, total)
    ensures dist == MaxResidual(arcs, path, total)
  {
    MaxResidualAttained(arcs, path, total);
    var k :| 0 <= k < |path| && MaxResidual(arcs, path, total) == total - arcs[path[k]].value.flow;
    assert dist <= MaxResidual(arcs, path, total);
  }
}
