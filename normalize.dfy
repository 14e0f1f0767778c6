/** normalize_coverage: the nodes come off a priority queue by start; nodes
    with the same start form a group, each node's coverage is divided by its
    group's total, and finally every node is scaled by the median of the
    group totals. The queue's pop order is a parameter (the comparator is not
    part of this model); a queue entry that is not a node of the graph
    (id >= node count) stands for an erased node and is skipped.

    The flag bareIf selects line 137 of the source: true is the code as
    written, a bare `if` after the new-group branch, so that the first node
    of every later group is counted twice; false is the evidently intended
    `else if`. */
module Normalize {
  import opened FlowGraph
  import opened Median

  /** The loop's accumulators: current_startpos, current_coverage,
      current_nodes, coverage_per_position, the normalized coverage map, and
      whether the loop gave up on a node out of order. */
  datatype NormState = NormState(
    startpos: int, total: real, members: seq<nat>, totals: seq<real>, norm: seq<real>, aborted: bool)

  function Init(norm: seq<real>): NormState {
    NormState(-1, 0.0, [], [], norm, false)
  }

  /** Every node has positive coverage, so no group total is zero. */
  predicate Inputs(nodeReads: seq<Option<Read>>, cov: seq<int>) {
    |cov| == |nodeReads| && forall i :: 0 <= i < |cov| ==> cov[i] > 0
  }

  /** Every queue entry that is a node has a read. */
  predicate Readable(nodeReads: seq<Option<Read>>, q: seq<nat>) {
    forall k :: 0 <= k < |q| && q[k] < |nodeReads| ==> nodeReads[q[k]].Some?
  }

  predicate StateOk(n: nat, st: NormState) {
    && |st.norm| == n
    && (forall k :: 0 <= k < |st.members| ==> st.members[k] < n)
    && st.total >= 0.0
    && (st.members != [] ==> st.total > 0.0)
    && (st.startpos != -1 ==> st.members != [])
  }

  /** The normalized map after dividing the coverage of every member by
      total. */
  function Divide(norm: seq<real>, cov: seq<int>, members: seq<nat>, total: real): (r: seq<real>)
    requires |cov| == |norm| && (members != [] ==> total != 0.0)
    ensures |r| == |norm|
    ensures forall v :: 0 <= v < |r| ==> r[v] == if v in members then cov[v] as real / total else norm[v]
  {
    seq(|norm|, v requires 0 <= v < |norm| => if v in members then cov[v] as real / total else norm[v])
  }

  /** One node taken off the queue (lines 97-143). */
  function Step(nodeReads: seq<Option<Read>>, cov: seq<int>, st: NormState, v: nat, bareIf: bool): (r: NormState)
    requires Inputs(nodeReads, cov) && StateOk(|nodeReads|, st) && (v < |nodeReads| ==> nodeReads[v].Some?)
    ensures StateOk(|nodeReads|, r)
    ensures r.aborted <==>
      st.aborted || (v < |nodeReads| && st.startpos != -1 && nodeReads[v].value.start > st.startpos)
    ensures !r.aborted && v < |nodeReads| ==> r.startpos == nodeReads[v].value.start && v in r.members
    ensures st.totals <= r.totals && |r.totals| <= |st.totals| + 1
  {
    if st.aborted || v >= |nodeReads| then st
    else
      var s := nodeReads[v].value.start;
      var c := cov[v] as real;
      if st.startpos == -1 then st.(startpos := s, total := c, members := st.members + [v])
      else if s < st.startpos then
        var closed := st.(totals := st.totals + [st.total], norm := Divide(st.norm, cov, st.members, st.total),
                          members := [v], total := c, startpos := s);
        if bareIf then closed.(total := closed.total + c, members := closed.members + [v]) else closed
      else if s == st.startpos then st.(total := st.total + c, members := st.members + [v])
      else st.(aborted := true)
  }

  /** The loop over the queue; it stops at the node out of order. */
  function Drain(nodeReads: seq<Option<Read>>, cov: seq<int>, st: NormState, q: seq<nat>, bareIf: bool): (r: NormState)
    requires Inputs(nodeReads, cov) && StateOk(|nodeReads|, st) && Readable(nodeReads, q)
    ensures StateOk(|nodeReads|, r)
    decreases |q|
  {
    if q == [] || st.aborted then st
    else Drain(nodeReads, cov, Step(nodeReads, cov, st, q[0], bareIf), q[1..], bareIf)
  }

  /** After the loop: the last group is closed and every node is scaled by
      the median of the group totals (lines 147-163). */
  function Finish(cov: seq<int>, st: NormState): (r: seq<real>)
    requires StateOk(|cov|, st)
    ensures |r| == |st.norm|
  {
    Scaled(Divide(st.norm, cov, st.members, st.total), Median.Median(st.totals + [st.total]))
  }

  /** Every entry multiplied by m. */
  function Scaled(d: seq<real>, m: real): (r: seq<real>)
    ensures |r| == |d|
    ensures forall i :: 0 <= i < |d| ==> r[i] == d[i] * m
  {
    seq(|d|, i requires 0 <= i < |d| => d[i] * m)
  }

  /** normalize_coverage on the given pop order: the normalized map and
      whether is_normalized is set. On a node out of order the map is left as
      the loop left it and the flag is not set. */
  function Normalized(nodeReads: seq<Option<Read>>, cov: seq<int>, norm: seq<real>, q: seq<nat>, bareIf: bool): (r: (seq<real>, bool))
    requires Inputs(nodeReads, cov) && |norm| == |nodeReads| && Readable(nodeReads, q)
    ensures |r.0| == |nodeReads|
    ensures !r.1 <==> exists i :: 0 <= i < |q| && AbortsAt(nodeReads, cov, Init(norm), q, bareIf, i)
  {
    var st := Drain(nodeReads, cov, Init(norm), q, bareIf);
    if st.aborted then
      AbortPoint(nodeReads, cov, Init(norm), q, bareIf);
      (st.norm, false)
    else (Finish(cov, st), true)
  }

  lemma {:induction false} DrainConcat(nodeReads: seq<Option<Read>>, cov: seq<int>, st: NormState, a: seq<nat>, b: seq<nat>, bareIf: bool)
    requires Inputs(nodeReads, cov) && StateOk(|nodeReads|, st) && Readable(nodeReads, a) && Readable(nodeReads, b)
    ensures Readable(nodeReads, a + b)
    ensures Drain(nodeReads, cov, st, a + b, bareIf)
      == Drain(nodeReads, cov, Drain(nodeReads, cov, st, a, bareIf), b, bareIf)
    decreases |a|
  {
    assert Readable(nodeReads, a + b) by {
      forall k | 0 <= k < |a + b| && (a + b)[k] < |nodeReads| ensures nodeReads[(a + b)[k]].Some? {
        if k >= |a| {
          assert (a + b)[k] == b[k - |a|];
        }
      }
    }
    if a == [] {
      assert a + b == b;
    } else if !st.aborted {
      assert (a + b)[1..] == a[1..] + b;
      DrainConcat(nodeReads, cov, Step(nodeReads, cov, st, a[0], bareIf), a[1..], b, bareIf);
    } else {
      AbortedStays(nodeReads, cov, st, b, bareIf);
    }
  }

  lemma {:induction false} AbortedStays(nodeReads: seq<Option<Read>>, cov: seq<int>, st: NormState, q: seq<nat>, bareIf: bool)
    requires Inputs(nodeReads, cov) && StateOk(|nodeReads|, st) && Readable(nodeReads, q) && st.aborted
    ensures Drain(nodeReads, cov, st, q, bareIf) == st
  {
  }

  /** The queue entries that are nodes of the graph, in queue order. */
  function ValidEntries(n: nat, q: seq<nat>): (r: seq<nat>)
    ensures forall k :: 0 <= k < |r| ==> r[k] < n
    ensures forall v :: v in r <==> v in q && v < n
  {
    if q == [] then []
    else (if q[0] < n then [q[0]] else []) + ValidEntries(n, q[1..])
  }

  /** Entries that are not nodes are skipped: the loop behaves as on the
      queue without them. */
  lemma {:induction false} InvalidSkipped(nodeReads: seq<Option<Read>>, cov: seq<int>, st: NormState, q: seq<nat>, bareIf: bool)
    requires Inputs(nodeReads, cov) && StateOk(|nodeReads|, st) && Readable(nodeReads, q)
    ensures Readable(nodeReads, ValidEntries(|nodeReads|, q))
    ensures Drain(nodeReads, cov, st, q, bareIf) == Drain(nodeReads, cov, st, ValidEntries(|nodeReads|, q), bareIf)
    decreases |q|
  {
    var vq := ValidEntries(|nodeReads|, q);
    assert Readable(nodeReads, vq) by {
      forall k | 0 <= k < |vq| ensures nodeReads[vq[k]].Some? {
        assert vq[k] in q;
      }
    }
    if q != [] {
      assert Readable(nodeReads, q[1..]);
      InvalidSkipped(nodeReads, cov, Step(nodeReads, cov, st, q[0], bareIf), q[1..], bareIf);
      InvalidSkipped(nodeReads, cov, st, q[1..], bareIf);
      if q[0] < |nodeReads| && !st.aborted {
        assert vq == [q[0]] + ValidEntries(|nodeReads|, q[1..]);
        assert vq[1..] == ValidEntries(|nodeReads|, q[1..]);
      } else if q[0] >= |nodeReads| {
        assert vq == ValidEntries(|nodeReads|, q[1..]);
      }
    }
  }

  /** The loop reaches the i-th queue entry without giving up, and that
      entry is a node whose start lies after the current group's; the loop
      ends there with the state it had, flagged. */
  ghost predicate AbortsAt(nodeReads: seq<Option<Read>>, cov: seq<int>, st: NormState, q: seq<nat>, bareIf: bool, i: nat)
    requires Inputs(nodeReads, cov) && StateOk(|nodeReads|, st) && Readable(nodeReads, q) && i < |q|
  {
    var before := Drain(nodeReads, cov, st, q[..i], bareIf);
    && !before.aborted
    && q[i] < |nodeReads| && before.startpos != -1 && nodeReads[q[i]].value.start > before.startpos
    && Drain(nodeReads, cov, st, q, bareIf) == before.(aborted := true)
  }

  /** The loop gives up exactly at the first node whose start lies after the
      current group's: the queue splits into a prefix handled normally, that
      node, and a rest that is never looked at, and the state is the
      prefix's with the flag set. NormalizeGroups.AbortedGroups states the
      map this leaves. */
  lemma {:induction false} AbortPoint(nodeReads: seq<Option<Read>>, cov: seq<int>, st: NormState, q: seq<nat>, bareIf: bool)
    requires Inputs(nodeReads, cov) && StateOk(|nodeReads|, st) && Readable(nodeReads, q) && !st.aborted
    requires Drain(nodeReads, cov, st, q, bareIf).aborted
    ensures exists i :: 0 <= i < |q| && AbortsAt(nodeReads, cov, st, q, bareIf, i)
    decreases |q|
  {
    var st1 := Step(nodeReads, cov, st, q[0], bareIf);
    if st1.aborted {
      AbortsFirst(nodeReads, cov, st, q, bareIf);
    } else {
      AbortPoint(nodeReads, cov, st1, q[1..], bareIf);
      var i :| 0 <= i < |q[1..]| && AbortsAt(nodeReads, cov, st1, q[1..], bareIf, i);
      AbortsLater(nodeReads, cov, st, q, bareIf, i);
    }
  }

  /** The first node aborts the loop when its own step does. */
  lemma {:induction false} AbortsFirst(nodeReads: seq<Option<Read>>, cov: seq<int>, st: NormState, q: seq<nat>, bareIf: bool)
    requires Inputs(nodeReads, cov) && StateOk(|nodeReads|, st) && Readable(nodeReads, q) && !st.aborted && q != []
    requires Step(nodeReads, cov, st, q[0], bareIf).aborted
    ensures AbortsAt(nodeReads, cov, st, q, bareIf, 0)
  {
    assert q[..0] == [];
    assert Drain(nodeReads, cov, st, q[..0], bareIf) == st;
  }

  /** Aborting at node i of the rest after a step that does not abort is
      aborting at node i + 1 of the whole queue. */
  lemma {:induction false} AbortsLater(nodeReads: seq<Option<Read>>, cov: seq<int>, st: NormState, q: seq<nat>, bareIf: bool, i: nat)
    requires Inputs(nodeReads, cov) && StateOk(|nodeReads|, st) && Readable(nodeReads, q) && !st.aborted
    requires i + 1 < |q| && !Step(nodeReads, cov, st, q[0], bareIf).aborted
    requires AbortsAt(nodeReads, cov, Step(nodeReads, cov, st, q[0], bareIf), q[1..], bareIf, i)
    ensures AbortsAt(nodeReads, cov, st, q, bareIf, i + 1)
  {
    var st1 := Step(nodeReads, cov, st, q[0], bareIf);
    assert q[..i + 1][1..] == q[1..][..i];
    assert q[..i + 1] != [] && q[..i + 1][0] == q[0];
    assert Drain(nodeReads, cov, st, q[..i + 1], bareIf) == Drain(nodeReads, cov, st1, q[1..][..i], bareIf);
  }
}
