/** One round of decompose after the path search: the pattern grows by the
    read of every path arc's tail, and every path arc whose tail has a read
    gives up the path's flow and is erased once nearly empty. */
module Decompose {
  import opened FlowGraph
  import opened WidestPath

  /** An arc whose flow falls below this is erased. */
  const EraseBelow: real := 0.001

  /** A path carrying less than this ends the decomposition unreported. */
  const MinPatternFlow: real := 0.005

  /** A methylation pattern: a copy of the source's read into which the
      reads of the listed nodes were merged, in order. The merge itself
      (MethylRead::merge) is not part of this model. */
  datatype Pattern = Pattern(seed: Read, merged: seq<nat>)

  /** One line of the pattern stream: chromosome, start, end, component,
      pattern number, flow and pattern. */
  datatype PatternRecord = PatternRecord(
    chr: int, start: int, end: int, componentID: int, patternID: nat, flow: real, pattern: Pattern)

  predicate HasRead(nodeReads: seq<Option<Read>>, v: nat) {
    v < |nodeReads| && nodeReads[v].Some?
  }

  /** The arc after giving up pf: erased when what is left is below the
      erase threshold. */
  function Lowered(a: Arc, pf: real): (r: Option<Arc>)
    ensures r.Some? <==> a.flow - pf >= EraseBelow
    ensures r.Some? ==> r.value == a.(flow := a.flow - pf)
  {
    if a.flow - pf < EraseBelow then None else Some(a.(flow := a.flow - pf))
  }

  /** The body of the loop over the path for arc j: skip it when its tail has
      no read; otherwise merge the tail unless it is the source, take pf off
      the arc and erase it when nearly empty. */
  function StepArc(nodeReads: seq<Option<Read>>, source: nat, pf: real,
                   arcs: seq<Option<Arc>>, merged: seq<nat>, j: nat): (seq<Option<Arc>>, seq<nat>)
  {
    if j >= |arcs| || arcs[j].None? || !HasRead(nodeReads, arcs[j].value.tail) then (arcs, merged)
    else
      var a := arcs[j].value;
      var merged' := if a.tail != source then merged + [a.tail] else merged;
      (arcs[j := Lowered(a, pf)], merged')
  }

  /** The loop over the path, in path order. */
  function Apply(nodeReads: seq<Option<Read>>, source: nat, pf: real,
                 arcs: seq<Option<Arc>>, merged: seq<nat>, p: seq<nat>): (seq<Option<Arc>>, seq<nat>)
    decreases |p|
  {
    if p == [] then (arcs, merged)
    else
      var (arcs', merged') := StepArc(nodeReads, source, pf, arcs, merged, p[0]);
      Apply(nodeReads, source, pf, arcs', merged', p[1..])
  }

  /** The arc table after the round, arc by arc: a path arc whose tail has a
      read is lowered, every other arc is as it was. Only flows change, no
      erased arc comes back, and an arc that changed is on the path and is
      either erased or still holds at least the erase threshold. */
  function Decremented(nodeReads: seq<Option<Read>>, pf: real, arcs: seq<Option<Arc>>, p: seq<nat>): (r: seq<Option<Arc>>)
    ensures |r| == |arcs|
    ensures forall i :: 0 <= i < |r| && r[i].Some? ==> arcs[i].Some? && r[i].value == arcs[i].value.(flow := r[i].value.flow)
    ensures forall i :: 0 <= i < |r| && r[i] != arcs[i] ==> i in p && (r[i].None? || r[i].value.flow >= EraseBelow)
  {
    seq(|arcs|, i requires 0 <= i < |arcs| =>
      if i in p && arcs[i].Some? && HasRead(nodeReads, arcs[i].value.tail) then Lowered(arcs[i].value, pf) else arcs[i])
  }

  /** The nodes whose reads the pattern takes in: the tails of the path's
      arcs that have a read and are not the source, in path order. */
  function MergedTails(nodeReads: seq<Option<Read>>, source: nat, arcs: seq<Option<Arc>>, p: seq<nat>): (r: seq<nat>)
    ensures |r| <= |p|
  {
    if p == [] then []
    else
      var j := p[0];
      var here := if j < |arcs| && arcs[j].Some? && HasRead(nodeReads, arcs[j].value.tail) && arcs[j].value.tail != source
        then [arcs[j].value.tail] else [];
      here + MergedTails(nodeReads, source, arcs, p[1..])
  }

  predicate Distinct(p: seq<nat>) {
    forall k, l :: 0 <= k < l < |p| ==> p[k] != p[l]
  }

  /** MergedTails only looks at the path's own arcs. */
  lemma {:induction false} MergedTailsFrame(nodeReads: seq<Option<Read>>, source: nat,
                                           arcs: seq<Option<Arc>>, arcs': seq<Option<Arc>>, p: seq<nat>)
    requires |arcs| == |arcs'|
    requires forall k :: 0 <= k < |p| && p[k] < |arcs| ==> arcs[p[k]] == arcs'[p[k]]
    ensures MergedTails(nodeReads, source, arcs, p) == MergedTails(nodeReads, source, arcs', p)
  {
    if p != [] {
      MergedTailsFrame(nodeReads, source, arcs, arcs', p[1..]);
    }
  }

  /** Changing an arc the path does not use leaves MergedTails alone. */
  lemma {:induction false} MergedTailsUpdate(nodeReads: seq<Option<Read>>, source: nat,
                                            arcs: seq<Option<Arc>>, j: nat, a: Option<Arc>, p: seq<nat>)
    requires j < |arcs| && j !in p
    ensures MergedTails(nodeReads, source, arcs[j := a], p) == MergedTails(nodeReads, source, arcs, p)
  {
    forall k | 0 <= k < |p| && p[k] < |arcs| ensures arcs[j := a][p[k]] == arcs[p[k]] {
      assert p[k] in p;
    }
    MergedTailsFrame(nodeReads, source, arcs[j := a], arcs, p);
  }

  /** Handling the path's first arc and then the rest arc by arc amounts to
      handling the whole path arc by arc, when the rest does not reuse it. */
  lemma {:induction false} StepThenDecremented(nodeReads: seq<Option<Read>>, source: nat, pf: real,
                            arcs: seq<Option<Arc>>, merged: seq<nat>, p: seq<nat>)
    requires p != [] && p[0] !in p[1..]
    ensures var (arcs1, merged1) := StepArc(nodeReads, source, pf, arcs, merged, p[0]);
      && Decremented(nodeReads, pf, arcs1, p[1..]) == Decremented(nodeReads, pf, arcs, p)
      && merged1 + MergedTails(nodeReads, source, arcs1, p[1..]) == merged + MergedTails(nodeReads, source, arcs, p)
  {
    StepArcsThenDecremented(nodeReads, source, pf, arcs, merged, p);
    StepMergedThenTails(nodeReads, source, pf, arcs, merged, p);
  }

  lemma {:induction false} StepArcsThenDecremented(nodeReads: seq<Option<Read>>, source: nat, pf: real,
                                arcs: seq<Option<Arc>>, merged: seq<nat>, p: seq<nat>)
    requires p != [] && p[0] !in p[1..]
    ensures Decremented(nodeReads, pf, StepArc(nodeReads, source, pf, arcs, merged, p[0]).0, p[1..])
      == Decremented(nodeReads, pf, arcs, p)
  {
    var j := p[0];
    var rest := p[1..];
    var arcs1 := StepArc(nodeReads, source, pf, arcs, merged, j).0;
    var lhs := Decremented(nodeReads, pf, arcs1, rest);
    var rhs := Decremented(nodeReads, pf, arcs, p);
    forall i | 0 <= i < |arcs| ensures lhs[i] == rhs[i] {
      assert i in p <==> i == j || i in rest;
    }
  }

  lemma {:induction false} StepMergedThenTails(nodeReads: seq<Option<Read>>, source: nat, pf: real,
                                              arcs: seq<Option<Arc>>, merged: seq<nat>, p: seq<nat>)
    requires p != [] && p[0] !in p[1..]
    ensures var (arcs1, merged1) := StepArc(nodeReads, source, pf, arcs, merged, p[0]);
      merged1 + MergedTails(nodeReads, source, arcs1, p[1..]) == merged + MergedTails(nodeReads, source, arcs, p)
  {
    var j := p[0];
    var rest := p[1..];
    var here := if j < |arcs| && arcs[j].Some? && HasRead(nodeReads, arcs[j].value.tail) && arcs[j].value.tail != source
      then [arcs[j].value.tail] else [];
    assert MergedTails(nodeReads, source, arcs, p) == here + MergedTails(nodeReads, source, arcs, rest);
    if j < |arcs| && arcs[j].Some? && HasRead(nodeReads, arcs[j].value.tail) {
      var arcs1 := arcs[j := Lowered(arcs[j].value, pf)];
      MergedTailsUpdate(nodeReads, source, arcs, j, Lowered(arcs[j].value, pf), rest);
      if arcs[j].value.tail == source {
        assert merged + here == merged;
      }
      assert StepArc(nodeReads, source, pf, arcs, merged, j) == (arcs1, merged + here);
    }
  }

  /** The loop over a path that uses no arc twice has the arc-by-arc effect
      of Decremented and appends exactly MergedTails to the pattern. */
  lemma {:induction false} ApplyClosedForm(nodeReads: seq<Option<Read>>, source: nat, pf: real,
                                          arcs: seq<Option<Arc>>, merged: seq<nat>, p: seq<nat>)
    requires Distinct(p)
    ensures Apply(nodeReads, source, pf, arcs, merged, p)
      == (Decremented(nodeReads, pf, arcs, p), merged + MergedTails(nodeReads, source, arcs, p))
    decreases |p|
  {
    if p == [] {
      assert Decremented(nodeReads, pf, arcs, p) == arcs;
      assert merged + MergedTails(nodeReads, source, arcs, p) == merged;
    } else {
      var (arcs1, merged1) := StepArc(nodeReads, source, pf, arcs, merged, p[0]);
      assert Distinct(p[1..]);
      assert p[0] !in p[1..];
      StepThenDecremented(nodeReads, source, pf, arcs, merged, p);
      ApplyClosedForm(nodeReads, source, pf, arcs1, merged1, p[1..]);
    }
  }

  /** On a simple walk from source to sink the pattern never takes in the
      source's or the sink's read, and takes in only tails of path arcs that
      have a read. */
  lemma {:induction false} MergedTailsOfWalk(nodeReads: seq<Option<Read>>, arcs: seq<Option<Arc>>,
                                            source: nat, sink: nat, p: seq<nat>)
    requires AllLive(arcs, p) && Simple(arcs, p, sink)
    ensures source !in MergedTails(nodeReads, source, arcs, p)
    ensures sink !in MergedTails(nodeReads, source, arcs, p)
    ensures forall v :: v in MergedTails(nodeReads, source, arcs, p) ==>
      HasRead(nodeReads, v) && exists k :: 0 <= k < |p| && arcs[p[k]].value.tail == v
  {
    if p != [] {
      var rest := p[1..];
      assert AllLive(arcs, rest) && Simple(arcs, rest, sink) by {
        forall k | 0 <= k < |rest| ensures rest[k] == p[k + 1] { }
      }
      MergedTailsOfWalk(nodeReads, arcs, source, sink, rest);
      forall v | v in MergedTails(nodeReads, source, arcs, rest)
        ensures exists k :: 0 <= k < |p| && arcs[p[k]].value.tail == v
      {
        var k :| 0 <= k < |rest| && arcs[rest[k]].value.tail == v;
        assert arcs[p[k + 1]].value.tail == v;
      }
    }
  }

  /** The round's arc table: arcs keep their ends and weight, flows never
      rise when pf is not negative, and an erased arc stays erased. */
  predicate Evolves(before: seq<Option<Arc>>, after: seq<Option<Arc>>) {
    && |after| == |before|
    && forall i :: 0 <= i < |after| && after[i].Some? ==>
         && before[i].Some?
         && after[i].value.tail == before[i].value.tail
         && after[i].value.head == before[i].value.head
         && after[i].value.weight == before[i].value.weight
         && after[i].value.flow <= before[i].value.flow
  }

  lemma {:induction false} EvolvesTransitive(a: seq<Option<Arc>>, b: seq<Option<Arc>>, c: seq<Option<Arc>>)
    requires Evolves(a, b) && Evolves(b, c)
    ensures Evolves(a, c)
  {
  }

  lemma {:induction false} DecrementedEvolves(nodeReads: seq<Option<Read>>, pf: real, arcs: seq<Option<Arc>>, p: seq<nat>)
    requires pf >= 0.0
    ensures Evolves(arcs, Decremented(nodeReads, pf, arcs, p))
  {
  }

  /** When pf is the bottleneck of the path, the path's weakest arc is
      emptied, so it is erased unless its tail has no read. */
  lemma {:induction false} BottleneckErased(nodeReads: seq<Option<Read>>, arcs: seq<Option<Arc>>, p: seq<nat>)
    requires |p| > 0 && AllLive(arcs, p)
    ensures exists k :: 0 <= k < |p| && arcs[p[k]].value.flow == Bottleneck(arcs, p) &&
                        (HasRead(nodeReads, arcs[p[k]].value.tail) ==>
                           Decremented(nodeReads, Bottleneck(arcs, p), arcs, p)[p[k]].None?)
  {
    BottleneckAttained(arcs, p);
    var k :| 0 <= k < |p| && Bottleneck(arcs, p) == arcs[p[k]].value.flow;
    assert p[k] in p;
  }

  /** No live arc carries negative flow. */
  predicate NonNegativeFlows(arcs: seq<Option<Arc>>) {
    forall j :: 0 <= j < |arcs| && arcs[j].Some? ==> arcs[j].value.flow >= 0.0
  }

  /** A round taking the bottleneck off a path of a table without negative
      flow takes off a non-negative amount, so flows only fall, and none
      becomes negative. */
  lemma {:induction false} BottleneckRoundKeepsFlows(nodeReads: seq<Option<Read>>, arcs: seq<Option<Arc>>, p: seq<nat>)
    requires NonNegativeFlows(arcs) && |p| > 0 && AllLive(arcs, p)
    ensures Bottleneck(arcs, p) >= 0.0
    ensures NonNegativeFlows(Decremented(nodeReads, Bottleneck(arcs, p), arcs, p))
    ensures Evolves(arcs, Decremented(nodeReads, Bottleneck(arcs, p), arcs, p))
  {
    BottleneckAttained(arcs, p);
    var k :| 0 <= k < |p| && Bottleneck(arcs, p) == arcs[p[k]].value.flow;
    assert arcs[p[k]].value.flow >= 0.0;
    DecrementedEvolves(nodeReads, Bottleneck(arcs, p), arcs, p);
  }

  /** The flows of the reported patterns, added up. */
  function SumFlows(records: seq<PatternRecord>): real {
    if records == [] then 0.0 else SumFlows(records[..|records| - 1]) + records[|records| - 1].flow
  }

  /** The k-th line decompose writes (counting from 1): the component and
      chromosome it was called with, the source's start and the sink's end,
      a flow of at least MinPatternFlow, and a pattern grown from the
      source's read by reads of nodes other than the terminals. */
  predicate Reported(nodeReads: seq<Option<Read>>, source: nat, sink: nat, chr: int, componentID: int,
                     r: PatternRecord, k: nat)
    requires source < |nodeReads| && sink < |nodeReads| && nodeReads[source].Some? && nodeReads[sink].Some?
  {
    && r.chr == chr && r.componentID == componentID && r.patternID == k
    && r.start == nodeReads[source].value.start && r.end == nodeReads[sink].value.End()
    && r.flow >= MinPatternFlow
    && r.pattern.seed == nodeReads[source].value
    && forall v :: v in r.pattern.merged ==> HasRead(nodeReads, v) && v != source && v != sink
  }
}
