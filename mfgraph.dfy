/** The MFGraph object of methylFlow: its node and arc maps as fields, and
    the operations of MFGraph_solve.cpp as methods that update them in place.
    Each method is proved against the closed form of its operation. */
module MFGraphSolve {
  import opened FlowGraph
  import opened Median
  import opened Normalize
  import opened Terminals
  import opened Regularize
  import opened WidestPath
  import opened Decompose

  class MFGraph {
    var nodeReads: seq<Option<Read>>
    var coverage: seq<int>
    var normalized: seq<real>
    var childless: seq<bool>
    var parentless: seq<bool>
    var fake: seq<bool>
    var arcs: seq<Option<Arc>>
    var source: nat
    var sink: nat
    var isNormalized: bool

    /** The node and arc maps as one value. */
    function State(): Graph
      reads this
    {
      Graph(nodeReads, coverage, normalized, childless, parentless, fake, arcs)
    }

    ghost predicate Valid()
      reads this
    {
      State().WellFormed()
    }

    constructor (g: Graph)
      requires g.WellFormed()
      ensures Valid() && State() == g && !isNormalized
    {
      nodeReads, coverage, normalized := g.nodeReads, g.coverage, g.normalized;
      childless, parentless, fake, arcs := g.childless, g.parentless, g.fake, g.arcs;
      source, sink, isNormalized := 0, 0, false;
    }

    /** addNode: a new node with the given read and coverage, no flags set
        and normalized coverage 0. */
    method AddNode(read: Option<Read>, cov: int) returns (v: nat)
      requires Valid()
      modifies this`nodeReads, this`coverage, this`normalized, this`childless, this`parentless, this`fake
      ensures Valid() && v == old(|nodeReads|)
      ensures nodeReads == old(nodeReads) + [read] && coverage == old(coverage) + [cov]
      ensures normalized == old(normalized) + [0.0]
      ensures childless == old(childless) + [false] && parentless == old(parentless) + [false]
      ensures fake == old(fake) + [false]
    {
      v := |nodeReads|;
      nodeReads, coverage, normalized := nodeReads + [read], coverage + [cov], normalized + [0.0];
      childless, parentless, fake := childless + [false], parentless + [false], fake + [false];
    }

    /** The first loop of add_terminals: flag every node no arc leaves, and
        track the rightmost read among them. */
    method FlagChildless() returns (rightMostStart: int, rightMostEnd: int)
      requires Valid()
      modifies this`childless
      ensures Valid() && childless == ChildlessFlags(old(State()))
      ensures (rightMostStart, rightMostEnd) == RightMost(old(State()), |nodeReads|)
    {
      ghost var g := State();
      ghost var flags := ChildlessFlags(g);
      rightMostStart, rightMostEnd := -1, -1;
      var i := 0;
      while i < |nodeReads|
        invariant 0 <= i <= |nodeReads| && |childless| == |g.childless|
        invariant nodeReads == g.nodeReads && arcs == g.arcs
        invariant forall j :: 0 <= j < |childless| ==> childless[j] == if j < i then flags[j] else g.childless[j]
        invariant (rightMostStart, rightMostEnd) == RightMost(g, i)
      {
        if OutCount(arcs, i) == 0 {
          childless := childless[i := true];
          if nodeReads[i].Some? && nodeReads[i].value.start > rightMostStart {
            rightMostStart := nodeReads[i].value.start;
            rightMostEnd := rightMostStart + nodeReads[i].value.length;
          }
        }
        i := i + 1;
      }
      assert childless == flags;
    }

    /** The second loop of add_terminals: flag every node no arc enters, and
        track the leftmost read among them, starting from init. */
    method FlagParentless(ghost g: Graph, init: int) returns (leftMostStart: int)
      requires Valid() && g.WellFormed()
      requires nodeReads == g.nodeReads && arcs == g.arcs && parentless == g.parentless
      modifies this`parentless
      ensures Valid() && parentless == ParentlessFlags(g)
      ensures leftMostStart == LeftMost(g, init, |nodeReads|)
    {
      leftMostStart := init;
      var i := 0;
      while i < |nodeReads|
        invariant 0 <= i <= |nodeReads| && |parentless| == |g.parentless|
        invariant forall j :: 0 <= j < |parentless| ==> parentless[j] == if j < i then ParentlessFlags(g)[j] else g.parentless[j]
        invariant leftMostStart == LeftMost(g, init, i)
      {
        if InCount(arcs, i) == 0 {
          parentless := parentless[i := true];
          if nodeReads[i].Some? && nodeReads[i].value.start < leftMostStart {
            leftMostStart := nodeReads[i].value.start;
          }
        }
        i := i + 1;
      }
    }

    /** The loop adding source -> n for every parentless node n. */
    method AddSourceArcs(sourceStart: int)
      requires Valid() && source < |nodeReads|
      requires forall i :: 0 <= i < |nodeReads| && parentless[i] ==> nodeReads[i].Some?
      modifies this`arcs
      ensures Valid()
      ensures arcs == old(arcs) + SourceArcs(nodeReads, parentless, source, sourceStart, |nodeReads|)
    {
      ghost var arcs0 := arcs;
      var i := 0;
      while i < |nodeReads|
        invariant 0 <= i <= |nodeReads|
        invariant arcs == arcs0 + SourceArcs(nodeReads, parentless, source, sourceStart, i)
      {
        if parentless[i] {
          arcs := arcs + [Some(Arc(source, i, nodeReads[i].value.start - sourceStart, 0.0))];
        }
        i := i + 1;
      }
      SourceArcsWithin(nodeReads, parentless, source, sourceStart, |nodeReads|);
    }

    /** The loop adding n -> sink for every childless node n. */
    method AddSinkArcs(sinkStart: int)
      requires Valid() && sink < |nodeReads|
      requires forall i :: 0 <= i < |nodeReads| && childless[i] ==> nodeReads[i].Some?
      modifies this`arcs
      ensures Valid()
      ensures arcs == old(arcs) + SinkArcs(nodeReads, childless, sink, sinkStart, |nodeReads|)
    {
      ghost var arcs0 := arcs;
      var i := 0;
      while i < |nodeReads|
        invariant 0 <= i <= |nodeReads|
        invariant arcs == arcs0 + SinkArcs(nodeReads, childless, sink, sinkStart, i)
      {
        if childless[i] {
          arcs := arcs + [Some(Arc(i, sink, sinkStart - nodeReads[i].value.start, 0.0))];
        }
        i := i + 1;
      }
      SinkArcsWithin(nodeReads, childless, sink, sinkStart, |nodeReads|);
    }

    /** The fake source: a node with the given read, flagged fake, with an
        arc to every parentless node. */
    method AddSource(read: Read)
      requires Valid()
      requires forall i :: 0 <= i < |nodeReads| && parentless[i] ==> nodeReads[i].Some?
      modifies this
      ensures Valid() && source == old(|nodeReads|)
      ensures nodeReads == old(nodeReads) + [Some(read)] && coverage == old(coverage) + [0]
      ensures normalized == old(normalized) + [0.0] && fake == old(fake) + [true]
      ensures childless == old(childless) + [false] && parentless == old(parentless) + [false]
      ensures arcs == old(arcs) + SourceArcs(nodeReads, parentless, source, read.start, |nodeReads|)
      ensures sink == old(sink) && isNormalized == old(isNormalized)
    {
      source := AddNode(Some(read), 0);
      fake := fake[source := true];
      AddSourceArcs(read.start);
    }

    /** The fake sink: a node with the given read, flagged fake, with an arc
        from every childless node. */
    method AddSink(read: Read)
      requires Valid()
      requires forall i :: 0 <= i < |nodeReads| && childless[i] ==> nodeReads[i].Some?
      modifies this
      ensures Valid() && sink == old(|nodeReads|)
      ensures nodeReads == old(nodeReads) + [Some(read)] && coverage == old(coverage) + [0]
      ensures normalized == old(normalized) + [0.0] && fake == old(fake) + [true]
      ensures childless == old(childless) + [false] && parentless == old(parentless) + [false]
      ensures arcs == old(arcs) + SinkArcs(nodeReads, childless, sink, read.start, |nodeReads|)
      ensures source == old(source) && isNormalized == old(isNormalized)
    {
      sink := AddNode(Some(read), 0);
      fake := fake[sink := true];
      AddSinkArcs(read.start);
    }

    /** add_terminals: flag the childless and parentless nodes, add the fake
        source one base before the leftmost read and the fake sink at the
        rightmost childless read, and join them to the flagged nodes. */
    method AddTerminals()
      requires Valid() && TerminalsDefined(State())
      modifies this
      ensures Valid() && State() == WithTerminals(old(State()))
      ensures source == old(|nodeReads|) && sink == source + 1
      ensures isNormalized == old(isNormalized)
    {
      ghost var g := State();
      var rightMostStart, rightMostEnd := FlagChildless();
      var leftMostStart := FlagParentless(g, rightMostStart);
      AddSource(Read(leftMostStart - 1, 1));
      AddSink(Read(rightMostStart, rightMostEnd - rightMostStart + 1));
      WithTerminalsInSteps(g, rightMostStart, rightMostEnd, leftMostStart);
    }

    /** regularize: every arc into the sink is rerouted through a fresh
        lambda node. The sink's in-arcs are visited in arc id order; the arcs
        the loop appends never enter the sink, so it never visits them. */
    method Regularize()
      requires Valid() && sink < |nodeReads|
      modifies this`nodeReads, this`coverage, this`normalized, this`childless, this`parentless, this`fake, this`arcs
      ensures Valid() && State() == Regularized(old(State()), sink)
    {
      ghost var g := State();
      var arcCount := |arcs|;
      RegularizedUpToStart(g, sink);
      var j := 0;
      while j < arcCount
        invariant 0 <= j <= arcCount == |g.arcs|
        invariant State() == RegularizedUpTo(g, sink, j)
      {
        RegularizeStep(g, sink, j);
        if arcs[j].Some? && arcs[j].value.head == sink {
          var newNode := AddNode(None, 0);
          var u := arcs[j].value.tail;
          arcs := arcs + [Some(Arc(u, newNode, 1, 0.0))];
          arcs := arcs[j := Some(arcs[j].value.(tail := newNode))];
          childless := childless[u := false];
          childless := childless[newNode := true];
        }
        j := j + 1;
      }
      RegularizedUpToEnd(g, sink);
    }

    /** The loop dividing the coverage of every node of the current group by
        the group's total. */
    method DivideMembers(members: seq<nat>, total: real)
      requires Valid() && (members != [] ==> total != 0.0)
      requires forall k :: 0 <= k < |members| ==> members[k] < |normalized|
      modifies this`normalized
      ensures Valid() && normalized == Divide(old(normalized), coverage, members, total)
    {
      ghost var before := normalized;
      var k := 0;
      while k < |members|
        invariant 0 <= k <= |members| && Valid()
        invariant normalized == Divide(before, coverage, members[..k], total)
      {
        var v := members[k];
        normalized := normalized[v := coverage[v] as real / total];
        assert members[..k + 1] == members[..k] + [v];
        k := k + 1;
      }
      assert members[..|members|] == members;
    }

    /** The loop multiplying every node's normalized coverage by m. */
    method ScaleAll(m: real)
      requires Valid()
      modifies this`normalized
      ensures Valid() && normalized == Scaled(old(normalized), m)
    {
      ghost var d := normalized;
      var k := 0;
      while k < |normalized|
        invariant 0 <= k <= |normalized| == |d| && Valid()
        invariant normalized == Scaled(d[..k], m) + d[k..]
      {
        var scaled := normalized[k] * m;
        ScaledStep(d, k, m, scaled);
        normalized := normalized[k := scaled];
        k := k + 1;
      }
      assert d[..|d|] == d;
    }

    /** One node taken off the queue, node v of the graph: it opens the
        first group, closes the current group and opens a new one, joins the
        current group, or is out of order. */
    method TakeNode(v: nat, startpos: int, total: real, members: seq<nat>, totals: seq<real>)
      returns (startpos': int, total': real, members': seq<nat>, totals': seq<real>, outOfOrder: bool)
      requires Valid() && Inputs(nodeReads, coverage) && v < |nodeReads| && nodeReads[v].Some?
      requires StateOk(|nodeReads|, NormState(startpos, total, members, totals, normalized, false))
      modifies this`normalized
      ensures Valid()
      ensures NormState(startpos', total', members', totals', normalized, outOfOrder)
           == Step(nodeReads, coverage, NormState(startpos, total, members, totals, old(normalized), false), v, true)
    {
      startpos', total', members', totals', outOfOrder := startpos, total, members, totals, false;
      var start := nodeReads[v].value.start;
      var c := coverage[v] as real;
      if startpos' == -1 {
        startpos', total', members' := start, c, members' + [v];
        return;
      }
      if start < startpos' {
        totals' := totals' + [total'];
        DivideMembers(members', total');
        members' := [v];
        total' := c;
        startpos' := start;
      }
      if start == startpos' {
        total' := total' + c;
        members' := members' + [v];
      } else {
        outOfOrder := true;
      }
    }

    /** normalize_coverage, with the nodes coming off the priority queue in
        the order given. On a node whose start lies after the current
        group's, the loop gives up and is_normalized is left as it was. */
    method NormalizeCoverage(queue: seq<nat>)
      requires Valid() && Inputs(nodeReads, coverage) && Readable(nodeReads, queue)
      modifies this`normalized, this`isNormalized
      ensures Valid()
      ensures normalized == Normalized(nodeReads, coverage, old(normalized), queue, true).0
      ensures isNormalized == (Normalized(nodeReads, coverage, old(normalized), queue, true).1 || old(isNormalized))
    {
      ghost var norm0 := normalized;
      var startpos := -1;
      var total := 0.0;
      var members: seq<nat> := [];
      var totals: seq<real> := [];
      var i := 0;
      while i < |queue|
        invariant 0 <= i <= |queue| && Valid() && isNormalized == old(isNormalized)
        invariant StateOk(|nodeReads|, NormState(startpos, total, members, totals, normalized, false))
        invariant Readable(nodeReads, queue[i..])
        invariant Drain(nodeReads, coverage, Init(norm0), queue, true)
               == Drain(nodeReads, coverage, NormState(startpos, total, members, totals, normalized, false), queue[i..], true)
      {
        var v := queue[i];
        assert queue[i..][0] == v && queue[i..][1..] == queue[i + 1..];
        i := i + 1;
        if v < |nodeReads| {
          var outOfOrder;
          startpos, total, members, totals, outOfOrder := TakeNode(v, startpos, total, members, totals);
          if outOfOrder {
            ghost var stopped := NormState(startpos, total, members, totals, normalized, true);
            AbortedStays(nodeReads, coverage, stopped, queue[i..], true);
            assert Drain(nodeReads, coverage, Init(norm0), queue, true) == stopped;
            assert Normalized(nodeReads, coverage, norm0, queue, true) == (normalized, false);
            return;
          }
        }
      }
      totals := totals + [total];
      DivideMembers(members, total);
      var median := Median.Median(totals);
      ScaleAll(median);
      isNormalized := true;
    }

    /** solve: regularize, then run the LP solver, whose status code is a
        parameter; a non-zero code is returned as it is, and 0 otherwise. */
    method Solve(solverStatus: int) returns (res: int)
      requires Valid() && sink < |nodeReads|
      modifies this`nodeReads, this`coverage, this`normalized, this`childless, this`parentless, this`fake, this`arcs
      ensures Valid() && State() == Regularized(old(State()), sink)
      ensures res == solverStatus
    {
      Regularize();
      res := solverStatus;
      if res != 0 {
        return res;
      }
      return 0;
    }

    /** The loop over the path's arcs in one round of decompose. */
    method ApplyPath(path: seq<nat>, pathFlow: real) returns (merged: seq<nat>)
      requires Valid() && AllLive(arcs, path) && Distinct(path)
      modifies this`arcs
      ensures Valid()
      ensures arcs == Decremented(nodeReads, pathFlow, old(arcs), path)
      ensures merged == MergedTails(nodeReads, source, old(arcs), path)
    {
      ghost var arcs0 := arcs;
      merged := [];
      var k := 0;
      while k < |path|
        invariant 0 <= k <= |path| && Valid() && |arcs| == |arcs0|
        invariant forall m :: k <= m < |path| ==> arcs[path[m]] == arcs0[path[m]]
        invariant Apply(nodeReads, source, pathFlow, arcs, merged, path[k..]) == Apply(nodeReads, source, pathFlow, arcs0, [], path)
      {
        assert path[k..][0] == path[k] && path[k..][1..] == path[k + 1..];
        forall m | k < m < |path| ensures path[m] != path[k] {
          assert path[k] != path[m];
        }
        merged := LowerArc(path[k], pathFlow, merged);
        k := k + 1;
      }
      ApplyClosedForm(nodeReads, source, pathFlow, arcs0, [], path);
    }

    /** The loop body for one live path arc j: when its tail has a read,
        merge the tail unless it is the source, take pathFlow off the arc
        and erase it when nearly empty. */
    method LowerArc(j: nat, pathFlow: real, merged: seq<nat>) returns (merged': seq<nat>)
      requires Valid() && j < |arcs| && arcs[j].Some?
      modifies this`arcs
      ensures Valid() && |arcs| == |old(arcs)|
      ensures (arcs, merged') == StepArc(nodeReads, source, pathFlow, old(arcs), merged, j)
      ensures forall i :: 0 <= i < |arcs| && i != j ==> arcs[i] == old(arcs)[i]
    {
      var a := arcs[j].value;
      var s := a.tail;
      merged' := merged;
      if nodeReads[s].Some? {
        if s != source {
          merged' := merged + [s];
        }
        var left := a.flow - pathFlow;
        if left < EraseBelow {
          arcs := arcs[j := None];
        } else {
          arcs := arcs[j := Some(a.(flow := left))];
        }
      }
    }

    /** One round of decompose: the widest path from source to sink under
        the residuals total - flow, its flow, and the loop over its arcs.
        When the sink is out of reach the path is empty and its flow is all
        of total. */
    method Round(total: real) returns (found: bool, path: seq<nat>, pathFlow: real, pattern: Pattern)
      requires Valid() && source < |nodeReads| && sink < |nodeReads| && source != sink
      requires nodeReads[source].Some?
      modifies this`arcs
      ensures Valid() && pattern.seed == nodeReads[source].value
      ensures found ==> && |path| > 0 && IsWalk(old(arcs), path, source, sink) && Simple(old(arcs), path, sink)
                        && pathFlow == Bottleneck(old(arcs), path)
                        && forall p :: IsWalk(old(arcs), p, source, sink) ==> |p| > 0 && Bottleneck(old(arcs), p) <= pathFlow
      ensures !found ==> path == [] && pathFlow == total && forall p :: !IsWalk(old(arcs), p, source, sink)
      ensures arcs == Decremented(nodeReads, pathFlow, old(arcs), path)
      ensures pattern.merged == MergedTails(nodeReads, source, old(arcs), path)
    {
      var dist;
      found, path, dist := WidestPath.WidestPath(arcs, |nodeReads|, source, sink, total);
      pathFlow := total - dist;
      if found {
        MaxResidualIsBottleneck(arcs, path, total);
        forall p | IsWalk(arcs, p, source, sink) ensures |p| > 0 && Bottleneck(arcs, p) <= pathFlow {
          MaxResidualIsBottleneck(arcs, p, total);
        }
        SimpleDistinct(arcs, path, sink);
      }
      var merged := ApplyPath(path, pathFlow);
      pattern := Pattern(nodeReads[source].value, merged);
    }

    /** A round as the loop of decompose uses it: the pattern holds the
        source's read and merges only reads of inner nodes, and, from a table
        without negative flow, flows stay non-negative and only fall. */
    method Peel(total: real, ghost arcs0: seq<Option<Arc>>, ghost nonNegative: bool) returns (pathFlow: real, pattern: Pattern)
      requires Valid() && source < |nodeReads| && sink < |nodeReads| && source != sink
      requires nodeReads[source].Some?
      requires nonNegative ==> NonNegativeFlows(arcs) && Evolves(arcs0, arcs)
      modifies this`arcs
      ensures Valid() && (nonNegative ==> NonNegativeFlows(arcs) && Evolves(arcs0, arcs))
      ensures pattern.seed == nodeReads[source].value
      ensures forall v :: v in pattern.merged ==> HasRead(nodeReads, v) && v != source && v != sink
    {
      ghost var before := arcs;
      var found, path;
      found, path, pathFlow, pattern := Round(total);
      if found {
        MergedTailsOfWalk(nodeReads, before, source, sink, path);
        if nonNegative {
          BottleneckRoundKeepsFlows(nodeReads, before, path);
          EvolvesTransitive(arcs0, before, arcs);
        }
      } else {
        assert arcs == before;
      }
    }

    /** decompose: peel widest paths off the flow while any is left, and
        report each path carrying at least MinPatternFlow; the first path
        carrying less ends the loop and is counted but not reported. The
        initial total flow is a parameter. */
    method Decompose(componentID: int, chr: int, totalFlow: real) returns (flownum: nat, records: seq<PatternRecord>)
      requires Valid() && source < |nodeReads| && sink < |nodeReads| && source != sink
      requires nodeReads[source].Some? && nodeReads[sink].Some?
      modifies this`arcs
      ensures Valid()
      ensures NonNegativeFlows(old(arcs)) ==> NonNegativeFlows(arcs) && Evolves(old(arcs), arcs)
      ensures forall k :: 0 <= k < |records| ==> Reported(nodeReads, source, sink, chr, componentID, records[k], k + 1)
      ensures flownum == |records| || flownum == |records| + 1
      ensures flownum == |records| ==> totalFlow - SumFlows(records) <= 0.0
      ensures flownum == |records| + 1 ==> totalFlow - SumFlows(records) > 0.0
    {
      ghost var arcs0 := arcs;
      ghost var nonNegative := NonNegativeFlows(arcs);
      var total := totalFlow;
      flownum := 0;
      records := [];
      while total > 0.0
        invariant Valid() && flownum == |records| && total == totalFlow - SumFlows(records)
        invariant forall k :: 0 <= k < |records| ==> Reported(nodeReads, source, sink, chr, componentID, records[k], k + 1)
        invariant nonNegative ==> NonNegativeFlows(arcs) && Evolves(arcs0, arcs)
        decreases (total * 200.0).Floor
      {
        flownum := flownum + 1;
        var pathFlow, pattern := Peel(total, arcs0, nonNegative);
        if pathFlow < MinPatternFlow {
          break;
        }
        var record := PatternRecord(chr, nodeReads[source].value.start, nodeReads[sink].value.End(),
                                    componentID, flownum, pathFlow, pattern);
        RecordAdded(records, record, totalFlow);
        LessFlowLeft(total, pathFlow);
        records := records + [record];
        total := total - pathFlow;
      }
    }
  }

  /** Reporting one more record takes its flow off what is left. */
  lemma RecordAdded(records: seq<PatternRecord>, record: PatternRecord, totalFlow: real)
    ensures totalFlow - SumFlows(records + [record]) == totalFlow - SumFlows(records) - record.flow
    ensures forall k :: 0 <= k < |records| ==> (records + [record])[k] == records[k]
  {
    assert (records + [record])[..|records|] == records;
  }

  /** A reported round removes enough flow to lower the loop's measure. */
  lemma LessFlowLeft(total: real, pathFlow: real)
    requires total > 0.0 && pathFlow >= MinPatternFlow
    ensures ((total - pathFlow) * 200.0).Floor < (total * 200.0).Floor
  {
  }

  /** One turn of the scaling loop. */
  lemma {:induction false} ScaledStep(d: seq<real>, k: nat, m: real, scaled: real)
    requires k < |d| && scaled == (Scaled(d[..k], m) + d[k..])[k] * m
    ensures (Scaled(d[..k], m) + d[k..])[k := scaled] == Scaled(d[..k + 1], m) + d[k + 1..]
  {
    var a := (Scaled(d[..k], m) + d[k..])[k := scaled];
    var b := Scaled(d[..k + 1], m) + d[k + 1..];
    forall i | 0 <= i < |d| ensures a[i] == b[i] {
      if i < k {
        assert d[..k + 1][i] == d[..k][i];
      }
    }
  }

  /** WithTerminals as add_terminals builds it: the source is added, and its
      arcs computed, before the sink exists. */
  lemma {:induction false} WithTerminalsInSteps(g: Graph, rs: int, re: int, ls: int)
    requires g.WellFormed() && TerminalsDefined(g)
    requires (rs, re) == RightMost(g, |g.nodeReads|) && ls == LeftMost(g, rs, |g.nodeReads|)
    ensures var n := |g.nodeReads|;
      var src := Read(ls - 1, 1);
      var snk := Read(rs, re - rs + 1);
      var nodeReads := g.nodeReads + [Some(src)] + [Some(snk)];
      var child := ChildlessFlags(g) + [false] + [false];
      var parent := ParentlessFlags(g) + [false] + [false];
      WithTerminals(g) == Graph(nodeReads, g.coverage + [0] + [0], g.normalized + [0.0] + [0.0], child, parent,
                                g.fake + [true] + [true],
                                g.arcs + SourceArcs(g.nodeReads + [Some(src)], ParentlessFlags(g) + [false], n, src.start, n + 1)
                                       + SinkArcs(nodeReads, child, n + 1, snk.start, n + 2))
  {
    var n := |g.nodeReads|;
    var src := Read(ls - 1, 1);
    var snk := Read(rs, re - rs + 1);
    TerminalReads(g, rs, re, ls);
    TerminalArcsInSteps(g, rs, re, ls);
    var w := WithTerminals(g);
    assert w.nodeReads == g.nodeReads + [Some(src)] + [Some(snk)];
    assert w.childless == ChildlessFlags(g) + [false] + [false];
    assert w.parentless == ParentlessFlags(g) + [false] + [false];
    assert w.fake == g.fake + [true] + [true];
    assert w.coverage == g.coverage + [0] + [0] && w.normalized == g.normalized + [0.0] + [0.0];
  }

  /** The arcs of WithTerminals as add_terminals adds them: the source's arcs
      are computed while the sink does not exist yet. */
  lemma {:induction false} TerminalArcsInSteps(g: Graph, rs: int, re: int, ls: int)
    requires g.WellFormed() && TerminalsDefined(g)
    requires (rs, re) == RightMost(g, |g.nodeReads|) && ls == LeftMost(g, rs, |g.nodeReads|)
    ensures var n := |g.nodeReads|;
      var src := Read(ls - 1, 1);
      var snk := Read(rs, re - rs + 1);
      WithTerminals(g).arcs ==
        g.arcs + SourceArcs(g.nodeReads + [Some(src)], ParentlessFlags(g) + [false], n, src.start, n + 1)
               + SinkArcs(g.nodeReads + [Some(src)] + [Some(snk)], ChildlessFlags(g) + [false] + [false], n + 1, snk.start, n + 2)
  {
    var n := |g.nodeReads|;
    var src := Read(ls - 1, 1);
    var snk := Read(rs, re - rs + 1);
    var nodeReads := g.nodeReads + [Some(src), Some(snk)];
    var parent := ParentlessFlags(g) + [false, false];
    var child := ChildlessFlags(g) + [false, false];
    TerminalReads(g, rs, re, ls);
    WithTerminalsArcs(g);
    SourceArcsFrame(g.nodeReads + [Some(src)], nodeReads, ParentlessFlags(g) + [false], parent, n, src.start, n + 1);
    assert g.nodeReads + [Some(src)] + [Some(snk)] == nodeReads;
    assert ChildlessFlags(g) + [false] + [false] == child;
  }

  /** The arc table of WithTerminals: the old arcs, then the source's, then
      the sink's. */
  lemma {:induction false} WithTerminalsArcs(g: Graph)
    requires g.WellFormed() && TerminalsDefined(g)
    ensures var n := |g.nodeReads|;
      var nodeReads := g.nodeReads + [Some(SourceRead(g)), Some(SinkRead(g))];
      WithTerminals(g).arcs == g.arcs + SourceArcs(nodeReads, ParentlessFlags(g) + [false, false], n, SourceRead(g).start, n + 1)
                                      + SinkArcs(nodeReads, ChildlessFlags(g) + [false, false], n + 1, SinkRead(g).start, n + 2)
  {
  }

  /** The terminals' reads as add_terminals builds them from the two loops'
      results. */
  lemma {:induction false} TerminalReads(g: Graph, rs: int, re: int, ls: int)
    requires g.WellFormed()
    requires (rs, re) == RightMost(g, |g.nodeReads|) && ls == LeftMost(g, rs, |g.nodeReads|)
    ensures SourceRead(g) == Read(ls - 1, 1) && SinkRead(g) == Read(rs, re - rs + 1)
  {
  }

  /** SourceArcs only looks at the flags and reads of the nodes it visits. */
  lemma {:induction false} SourceArcsFrame(nr1: seq<Option<Read>>, nr2: seq<Option<Read>>, fl1: seq<bool>, fl2: seq<bool>,
                                          source: nat, sourceStart: int, k: nat)
    requires k <= |fl1| <= |nr1| && k <= |fl2| <= |nr2|
    requires forall i :: 0 <= i < k ==> fl1[i] == fl2[i] && nr1[i] == nr2[i]
    requires forall i :: 0 <= i < k && fl1[i] ==> nr1[i].Some?
    ensures SourceArcs(nr1, fl1, source, sourceStart, k) == SourceArcs(nr2, fl2, source, sourceStart, k)
  {
    if k > 0 {
      SourceArcsFrame(nr1, nr2, fl1, fl2, source, sourceStart, k - 1);
    }
  }
}
