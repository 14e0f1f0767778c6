/** add_terminals: flag the childless and parentless nodes, add a fake source
    before the leftmost read and a fake sink at the rightmost childless read,
    and join them to the flagged nodes. Node index order is the order in
    which the node loops visit the nodes. */
module Terminals {
  import opened FlowGraph

  /** The nodes the loops flag as childless: already flagged, or no arc
      leaves them. */
  function ChildlessFlags(g: Graph): (r: seq<bool>)
    requires g.WellFormed()
    ensures |r| == |g.nodeReads|
    ensures forall i :: 0 <= i < |r| ==> (r[i] <==> g.childless[i] || OutCount(g.arcs, i) == 0)
  {
    seq(|g.nodeReads|, i requires 0 <= i < |g.nodeReads| => g.childless[i] || OutCount(g.arcs, i) == 0)
  }

  /** The nodes the loops flag as parentless: already flagged, or no arc
      enters them. */
  function ParentlessFlags(g: Graph): (r: seq<bool>)
    requires g.WellFormed()
    ensures |r| == |g.nodeReads|
    ensures forall i :: 0 <= i < |r| ==> (r[i] <==> g.parentless[i] || InCount(g.arcs, i) == 0)
  {
    seq(|g.nodeReads|, i requires 0 <= i < |g.nodeReads| => g.parentless[i] || InCount(g.arcs, i) == 0)
  }

  /** Every node that will be joined to a terminal has a read: the arc
      weights dereference it. */
  ghost predicate TerminalsDefined(g: Graph)
    requires g.WellFormed()
  {
    forall i :: 0 <= i < |g.nodeReads| && (ChildlessFlags(g)[i] || ParentlessFlags(g)[i]) ==> g.nodeReads[i].Some?
  }

  /** The start and end of the rightmost read among the first k nodes that no
      arc leaves, the first one winning ties; (-1, -1) when there is none
      with a start above -1. */
  function RightMost(g: Graph, k: nat): (r: (int, int))
    requires g.WellFormed() && k <= |g.nodeReads|
    ensures r.0 >= -1
    ensures r.0 == -1 ==> r.1 == -1
  {
    if k == 0 then (-1, -1)
    else
      var (s, e) := RightMost(g, k - 1);
      var i := k - 1;
      if OutCount(g.arcs, i) == 0 && g.nodeReads[i].Some? && g.nodeReads[i].value.start > s
      then (g.nodeReads[i].value.start, g.nodeReads[i].value.End())
      else (s, e)
  }

  /** The least start among init and the reads of the first k nodes that no
      arc enters. */
  function LeftMost(g: Graph, init: int, k: nat): (r: int)
    requires g.WellFormed() && k <= |g.nodeReads|
    ensures r <= init
  {
    if k == 0 then init
    else
      var l := LeftMost(g, init, k - 1);
      var i := k - 1;
      if InCount(g.arcs, i) == 0 && g.nodeReads[i].Some? && g.nodeReads[i].value.start < l
      then g.nodeReads[i].value.start
      else l
  }

  /** The arcs source -> n, in node order, for every flagged node n among the
      first k, weighted by the distance from the source's start. */
  function SourceArcs(nodeReads: seq<Option<Read>>, flags: seq<bool>, source: nat, sourceStart: int, k: nat): seq<Option<Arc>>
    requires k <= |flags| <= |nodeReads|
    requires forall i :: 0 <= i < k && flags[i] ==> nodeReads[i].Some?
  {
    if k == 0 then []
    else
      var i := k - 1;
      SourceArcs(nodeReads, flags, source, sourceStart, k - 1)
        + if flags[i] then [Some(Arc(source, i, nodeReads[i].value.start - sourceStart, 0.0))] else []
  }

  /** The arcs n -> sink, in node order, for every flagged node n among the
      first k, weighted by the distance to the sink's start. */
  function SinkArcs(nodeReads: seq<Option<Read>>, flags: seq<bool>, sink: nat, sinkStart: int, k: nat): seq<Option<Arc>>
    requires k <= |flags| <= |nodeReads|
    requires forall i :: 0 <= i < k && flags[i] ==> nodeReads[i].Some?
  {
    if k == 0 then []
    else
      var i := k - 1;
      SinkArcs(nodeReads, flags, sink, sinkStart, k - 1)
        + if flags[i] then [Some(Arc(i, sink, sinkStart - nodeReads[i].value.start, 0.0))] else []
  }

  /** The read of the fake source: one base before the leftmost start. */
  function SourceRead(g: Graph): Read
    requires g.WellFormed()
  {
    var (rs, _) := RightMost(g, |g.nodeReads|);
    Read(LeftMost(g, rs, |g.nodeReads|) - 1, 1)
  }

  /** The read of the fake sink: from the rightmost childless start through
      one base past its end. */
  function SinkRead(g: Graph): Read
    requires g.WellFormed()
  {
    var (rs, re) := RightMost(g, |g.nodeReads|);
    Read(rs, re - rs + 1)
  }

  /** The graph after add_terminals: the flags updated, the source (node N)
      and the sink (node N + 1) appended as fake nodes with coverage 0, and
      the source and sink arcs appended after the existing arcs. */
  function WithTerminals(g: Graph): (r: Graph)
    requires g.WellFormed() && TerminalsDefined(g)
    ensures r.WellFormed()
    ensures |r.nodeReads| == |g.nodeReads| + 2
  {
    var n := |g.nodeReads|;
    var child := ChildlessFlags(g) + [false, false];
    var parent := ParentlessFlags(g) + [false, false];
    var src := SourceRead(g);
    var snk := SinkRead(g);
    var nodeReads := g.nodeReads + [Some(src), Some(snk)];
    var arcs := g.arcs + SourceArcs(nodeReads, parent, n, src.start, n + 1)
                       + SinkArcs(nodeReads, child, n + 1, snk.start, n + 2);
    SourceArcsWithin(nodeReads, parent, n, src.start, n + 1);
    SinkArcsWithin(nodeReads, child, n + 1, snk.start, n + 2);
    Graph(nodeReads, g.coverage + [0, 0], g.normalized + [0.0, 0.0], child, parent, g.fake + [true, true], arcs)
  }

  lemma {:induction false} SourceArcsWithin(nodeReads: seq<Option<Read>>, flags: seq<bool>, source: nat, sourceStart: int, k: nat)
    requires k <= |flags| <= |nodeReads| && source < |nodeReads|
    requires forall i :: 0 <= i < k && flags[i] ==> nodeReads[i].Some?
    ensures ArcsWithin(SourceArcs(nodeReads, flags, source, sourceStart, k), |nodeReads|)
  {
    if k > 0 {
      SourceArcsWithin(nodeReads, flags, source, sourceStart, k - 1);
    }
  }

  lemma {:induction false} SinkArcsWithin(nodeReads: seq<Option<Read>>, flags: seq<bool>, sink: nat, sinkStart: int, k: nat)
    requires k <= |flags| <= |nodeReads| && sink < |nodeReads|
    requires forall i :: 0 <= i < k && flags[i] ==> nodeReads[i].Some?
    ensures ArcsWithin(SinkArcs(nodeReads, flags, sink, sinkStart, k), |nodeReads|)
  {
    if k > 0 {
      SinkArcsWithin(nodeReads, flags, sink, sinkStart, k - 1);
    }
  }

  /** The sink's start is the greatest start among the first k nodes that no
      arc leaves and that have a read, and the first such node holding it
      gives the end; without one above -1 both stay -1. */
  lemma {:induction false} RightMostIsGreatest(g: Graph, k: nat)
    requires g.WellFormed() && k <= |g.nodeReads|
    ensures var (s, e) := RightMost(g, k);
      && (forall i :: 0 <= i < k && OutCount(g.arcs, i) == 0 && g.nodeReads[i].Some? ==> g.nodeReads[i].value.start <= s)
      && ((s, e) == (-1, -1) ||
          (s > -1 && exists i :: 0 <= i < k && OutCount(g.arcs, i) == 0 && g.nodeReads[i].Some?
                        && g.nodeReads[i].value.start == s && g.nodeReads[i].value.End() == e
                        && forall j :: 0 <= j < i && OutCount(g.arcs, j) == 0 && g.nodeReads[j].Some? ==>
                             g.nodeReads[j].value.start < s))
  {
    if k > 0 {
      RightMostIsGreatest(g, k - 1);
    }
  }

  /** The source's start plus one is the least of init and the starts of the
      first k nodes that no arc enters and that have a read. */
  lemma {:induction false} LeftMostIsLeast(g: Graph, init: int, k: nat)
    requires g.WellFormed() && k <= |g.nodeReads|
    ensures var l := LeftMost(g, init, k);
      && (forall i :: 0 <= i < k && InCount(g.arcs, i) == 0 && g.nodeReads[i].Some? ==> l <= g.nodeReads[i].value.start)
      && (l == init || exists i :: 0 <= i < k && InCount(g.arcs, i) == 0 && g.nodeReads[i].Some? && g.nodeReads[i].value.start == l)
  {
    if k > 0 {
      LeftMostIsLeast(g, init, k - 1);
    }
  }

  /** SourceArcs holds one arc source -> v per flagged v below k, none
      otherwise, and no arc out of any other node. */
  lemma {:induction false} SourceArcsCount(nodeReads: seq<Option<Read>>, flags: seq<bool>, source: nat, sourceStart: int, k: nat, u: nat, v: nat)
    requires k <= |flags| <= |nodeReads|
    requires forall i :: 0 <= i < k && flags[i] ==> nodeReads[i].Some?
    ensures ArcCount(SourceArcs(nodeReads, flags, source, sourceStart, k), u, v)
      == if u == source && v < k && flags[v] then 1 else 0
  {
    if k > 0 {
      var i := k - 1;
      var prev := SourceArcs(nodeReads, flags, source, sourceStart, k - 1);
      var here: seq<Option<Arc>> := if flags[i] then [Some(Arc(source, i, nodeReads[i].value.start - sourceStart, 0.0))] else [];
      assert SourceArcs(nodeReads, flags, source, sourceStart, k) == prev + here;
      SourceArcsCount(nodeReads, flags, source, sourceStart, k - 1, u, v);
      CountsAppend(prev, here, u, v);
      if flags[i] {
        CountsSnoc([], Some(Arc(source, i, nodeReads[i].value.start - sourceStart, 0.0)), u, v);
        assert [] + here == here;
      }
    }
  }

  lemma {:induction false} SinkArcsCount(nodeReads: seq<Option<Read>>, flags: seq<bool>, sink: nat, sinkStart: int, k: nat, u: nat, v: nat)
    requires k <= |flags| <= |nodeReads|
    requires forall i :: 0 <= i < k && flags[i] ==> nodeReads[i].Some?
    ensures ArcCount(SinkArcs(nodeReads, flags, sink, sinkStart, k), u, v)
      == if v == sink && u < k && flags[u] then 1 else 0
  {
    if k > 0 {
      var i := k - 1;
      var prev := SinkArcs(nodeReads, flags, sink, sinkStart, k - 1);
      var here: seq<Option<Arc>> := if flags[i] then [Some(Arc(i, sink, sinkStart - nodeReads[i].value.start, 0.0))] else [];
      assert SinkArcs(nodeReads, flags, sink, sinkStart, k) == prev + here;
      SinkArcsCount(nodeReads, flags, sink, sinkStart, k - 1, u, v);
      CountsAppend(prev, here, u, v);
      if flags[i] {
        CountsSnoc([], Some(Arc(i, sink, sinkStart - nodeReads[i].value.start, 0.0)), u, v);
        assert [] + here == here;
      }
    }
  }

  /** Every source arc starts at the source and enters a flagged node with a
      weight equal to that node's start minus the source's start. */
  lemma {:induction false} SourceArcsShape(nodeReads: seq<Option<Read>>, flags: seq<bool>, source: nat, sourceStart: int, k: nat)
    requires k <= |flags| <= |nodeReads|
    requires forall i :: 0 <= i < k && flags[i] ==> nodeReads[i].Some?
    ensures forall a :: a in SourceArcs(nodeReads, flags, source, sourceStart, k) ==>
      a.Some? && a.value.tail == source && a.value.head < k && flags[a.value.head] && a.value.flow == 0.0 &&
      a.value.weight == nodeReads[a.value.head].value.start - sourceStart
  {
    if k > 0 {
      SourceArcsShape(nodeReads, flags, source, sourceStart, k - 1);
    }
  }

  lemma {:induction false} SinkArcsShape(nodeReads: seq<Option<Read>>, flags: seq<bool>, sink: nat, sinkStart: int, k: nat)
    requires k <= |flags| <= |nodeReads|
    requires forall i :: 0 <= i < k && flags[i] ==> nodeReads[i].Some?
    ensures forall a :: a in SinkArcs(nodeReads, flags, sink, sinkStart, k) ==>
      a.Some? && a.value.head == sink && a.value.tail < k && flags[a.value.tail] && a.value.flow == 0.0 &&
      a.value.weight == sinkStart - nodeReads[a.value.tail].value.start
  {
    if k > 0 {
      SinkArcsShape(nodeReads, flags, sink, sinkStart, k - 1);
    }
  }

  /** add_terminals keeps the existing arcs, adds exactly one arc from the
      source to every node flagged parentless and exactly one arc from every
      node flagged childless to the sink, and no other arc between the old
      nodes and the terminals. */
  lemma {:induction false} TerminalArcCounts(g: Graph, v: nat)
    requires g.WellFormed() && TerminalsDefined(g) && v < |g.nodeReads|
    ensures var r := WithTerminals(g); var n := |g.nodeReads|;
      && r.arcs[..|g.arcs|] == g.arcs
      && ArcCount(r.arcs, n, v) == (if ParentlessFlags(g)[v] then 1 else 0)
      && ArcCount(r.arcs, v, n + 1) == (if ChildlessFlags(g)[v] then 1 else 0)
      && ArcCount(r.arcs, n + 1, v) == 0
      && ArcCount(r.arcs, v, n) == 0
  {
    var r := WithTerminals(g);
    var n := |g.nodeReads|;
    var child := ChildlessFlags(g) + [false, false];
    var parent := ParentlessFlags(g) + [false, false];
    var src := SourceRead(g);
    var snk := SinkRead(g);
    var sa := SourceArcs(r.nodeReads, parent, n, src.start, n + 1);
    var ka := SinkArcs(r.nodeReads, child, n + 1, snk.start, n + 2);
    assert r.arcs == g.arcs + sa + ka;
    assert r.arcs[..|g.arcs|] == g.arcs;
    CountsAppend(g.arcs + sa, ka, n, v);
    CountsAppend(g.arcs, sa, n, v);
    CountsAppend(g.arcs + sa, ka, v, n + 1);
    CountsAppend(g.arcs, sa, v, n + 1);
    CountsAppend(g.arcs + sa, ka, n + 1, v);
    CountsAppend(g.arcs, sa, n + 1, v);
    CountsAppend(g.arcs + sa, ka, v, n);
    CountsAppend(g.arcs, sa, v, n);
    ArcCountWithin(g.arcs, n, n, v);
    ArcCountWithin(g.arcs, n, v, n + 1);
    ArcCountWithin(g.arcs, n, n + 1, v);
    ArcCountWithin(g.arcs, n, v, n);
    SourceArcsCount(r.nodeReads, parent, n, src.start, n + 1, n, v);
    SourceArcsCount(r.nodeReads, parent, n, src.start, n + 1, v, n + 1);
    SourceArcsCount(r.nodeReads, parent, n, src.start, n + 1, n + 1, v);
    SourceArcsCount(r.nodeReads, parent, n, src.start, n + 1, v, n);
    SinkArcsCount(r.nodeReads, child, n + 1, snk.start, n + 2, n, v);
    SinkArcsCount(r.nodeReads, child, n + 1, snk.start, n + 2, v, n + 1);
    SinkArcsCount(r.nodeReads, child, n + 1, snk.start, n + 2, n + 1, v);
    SinkArcsCount(r.nodeReads, child, n + 1, snk.start, n + 2, v, n);
  }

  /** Afterwards every old node has an arc in and an arc out, so only the
      source is parentless in the arc sense and only the sink childless. */
  lemma {:induction false} TerminalsConnectAll(g: Graph, v: nat)
    requires g.WellFormed() && TerminalsDefined(g) && v < |g.nodeReads|
    ensures InCount(WithTerminals(g).arcs, v) >= 1 && OutCount(WithTerminals(g).arcs, v) >= 1
  {
    var r := WithTerminals(g);
    var n := |g.nodeReads|;
    TerminalArcCounts(g, v);
    ArcCountBounds(r.arcs, n, v);
    ArcCountBounds(r.arcs, v, n + 1);
    assert r.arcs == g.arcs + r.arcs[|g.arcs|..];
    CountsAppend(g.arcs, r.arcs[|g.arcs|..], v, v);
    if InCount(g.arcs, v) == 0 {
      assert ParentlessFlags(g)[v];
    }
    if OutCount(g.arcs, v) == 0 {
      assert ChildlessFlags(g)[v];
    }
  }

  /** Every source arc reaches a parentless read, which starts at or after
      the leftmost start: its weight is at least 1. */
  lemma {:induction false} SourceWeights(g: Graph)
    requires g.WellFormed() && TerminalsDefined(g)
    requires forall i :: 0 <= i < |g.nodeReads| ==> !g.parentless[i]
    ensures var n := |g.nodeReads|;
      forall a :: a in SourceArcs(WithTerminals(g).nodeReads, ParentlessFlags(g) + [false, false], n, SourceRead(g).start, n + 1) ==>
        a.Some? && a.value.tail == n && a.value.weight >= 1
  {
    var n := |g.nodeReads|;
    var nodeReads := WithTerminals(g).nodeReads;
    var parent := ParentlessFlags(g) + [false, false];
    var src := SourceRead(g);
    SourceArcsShape(nodeReads, parent, n, src.start, n + 1);
    var (rs, _) := RightMost(g, n);
    LeftMostIsLeast(g, rs, n);
    forall a | a in SourceArcs(nodeReads, parent, n, src.start, n + 1)
      ensures a.Some? && a.value.tail == n && a.value.weight >= 1
    {
      var h := a.value.head;
      assert parent[h] && h < n;
      assert InCount(g.arcs, h) == 0 && g.nodeReads[h].Some?;
      assert LeftMost(g, rs, n) <= g.nodeReads[h].value.start;
    }
  }

  /** Every sink arc leaves a childless read, which starts at or before the
      rightmost childless start: its weight is at least 0. */
  lemma {:induction false} SinkWeights(g: Graph)
    requires g.WellFormed() && TerminalsDefined(g)
    requires forall i :: 0 <= i < |g.nodeReads| ==> !g.childless[i]
    ensures var n := |g.nodeReads|;
      forall a :: a in SinkArcs(WithTerminals(g).nodeReads, ChildlessFlags(g) + [false, false], n + 1, SinkRead(g).start, n + 2) ==>
        a.Some? && a.value.head == n + 1 && a.value.weight >= 0
  {
    var n := |g.nodeReads|;
    var nodeReads := WithTerminals(g).nodeReads;
    var child := ChildlessFlags(g) + [false, false];
    var snk := SinkRead(g);
    SinkArcsShape(nodeReads, child, n + 1, snk.start, n + 2);
    var (rs, re) := RightMost(g, n);
    RightMostIsGreatest(g, n);
    forall a | a in SinkArcs(nodeReads, child, n + 1, snk.start, n + 2)
      ensures a.Some? && a.value.head == n + 1 && a.value.weight >= 0
    {
      var t := a.value.tail;
      assert child[t] && t < n;
      assert OutCount(g.arcs, t) == 0 && g.nodeReads[t].Some?;
      assert g.nodeReads[t].value.start <= rs;
    }
  }

  /** On a graph whose nodes are not yet flagged, every source arc weighs at
      least 1 and every sink arc at least 0: the source sits before every
      start it is joined to, the sink at or after. */
  lemma {:induction false} TerminalWeights(g: Graph)
    requires g.WellFormed() && TerminalsDefined(g)
    requires forall i :: 0 <= i < |g.nodeReads| ==> !g.childless[i] && !g.parentless[i]
    ensures var r := WithTerminals(g); var n := |g.nodeReads|;
      forall j :: |g.arcs| <= j < |r.arcs| ==>
        r.arcs[j].Some? &&
        ((r.arcs[j].value.tail == n && r.arcs[j].value.weight >= 1) ||
         (r.arcs[j].value.head == n + 1 && r.arcs[j].value.weight >= 0))
  {
    var r := WithTerminals(g);
    var n := |g.nodeReads|;
    var sa := SourceArcs(r.nodeReads, ParentlessFlags(g) + [false, false], n, SourceRead(g).start, n + 1);
    var ka := SinkArcs(r.nodeReads, ChildlessFlags(g) + [false, false], n + 1, SinkRead(g).start, n + 2);
    SourceWeights(g);
    SinkWeights(g);
    assert r.arcs == g.arcs + sa + ka;
    forall j | |g.arcs| <= j < |r.arcs|
      ensures r.arcs[j].Some? &&
        ((r.arcs[j].value.tail == n && r.arcs[j].value.weight >= 1) ||
         (r.arcs[j].value.head == n + 1 && r.arcs[j].value.weight >= 0))
    {
      if j < |g.arcs| + |sa| {
        assert r.arcs[j] == sa[j - |g.arcs|];
        assert r.arcs[j] in sa;
      } else {
        assert r.arcs[j] == ka[j - |g.arcs| - |sa|];
        assert r.arcs[j] in ka;
      }
    }
  }

}
