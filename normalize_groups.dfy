/** What normalize_coverage computes when the queue yields the nodes group
    by group with strictly decreasing starts: one total per group, and every
    node's coverage divided by its group's total and scaled by the median of
    the totals. */
module NormalizeGroups {
  import opened FlowGraph
  import opened Median
  import opened Normalize

  predicate Positive(cov: seq<int>) {
    forall i :: 0 <= i < |cov| ==> cov[i] > 0
  }

  /** The summed coverage of the nodes of run. */
  function SumCov(cov: seq<int>, run: seq<nat>): (r: real)
    requires Positive(cov) && forall k :: 0 <= k < |run| ==> run[k] < |cov|
    ensures r >= 0.0 && (run != [] ==> r > 0.0)
  {
    if run == [] then 0.0 else cov[run[0]] as real + SumCov(cov, run[1..])
  }

  /** The queue is the concatenation of the runs. */
  function Flatten(runs: seq<seq<nat>>): seq<nat> {
    if runs == [] then [] else Flatten(runs[..|runs| - 1]) + runs[|runs| - 1]
  }

  /** The runs are non-empty groups of nodes with reads, all nodes of run g
      start at starts[g], and the starts are non-negative and strictly
      decreasing. */
  ghost predicate Groups(nodeReads: seq<Option<Read>>, runs: seq<seq<nat>>, starts: seq<int>) {
    && |starts| == |runs|
    && (forall g :: 0 <= g < |runs| ==> |runs[g]| > 0 && starts[g] >= 0)
    && (forall g, k :: 0 <= g < |runs| && 0 <= k < |runs[g]| ==>
          runs[g][k] < |nodeReads| && nodeReads[runs[g][k]].Some? && nodeReads[runs[g][k]].value.start == starts[g])
    && (forall g, h :: 0 <= g < h < |runs| ==> starts[h] < starts[g])
  }

  /** The runs are non-empty and hold nodes only. */
  predicate RunsIn(cov: seq<int>, runs: seq<seq<nat>>) {
    && (forall g :: 0 <= g < |runs| ==> |runs[g]| > 0)
    && (forall g, k :: 0 <= g < |runs| && 0 <= k < |runs[g]| ==> runs[g][k] < |cov|)
  }

  /** The total recorded for a group: its summed coverage, plus, when line
      137 is the bare `if` and the group is not the first, its first node's
      coverage a second time. */
  function GroupTotal(cov: seq<int>, run: seq<nat>, later: bool, bareIf: bool): (r: real)
    requires Positive(cov) && |run| > 0 && forall k :: 0 <= k < |run| ==> run[k] < |cov|
    ensures r > 0.0
  {
    SumCov(cov, run) + if bareIf && later then cov[run[0]] as real else 0.0
  }

  function GroupTotals(cov: seq<int>, runs: seq<seq<nat>>, bareIf: bool): (r: seq<real>)
    requires Positive(cov) && RunsIn(cov, runs)
    ensures |r| == |runs|
  {
    seq(|runs|, g requires 0 <= g < |runs| => GroupTotal(cov, runs[g], g > 0, bareIf))
  }

  lemma {:induction false} FlattenMembers(runs: seq<seq<nat>>)
    ensures forall v :: v in Flatten(runs) <==> exists g :: 0 <= g < |runs| && v in runs[g]
  {
    if runs != [] {
      var pre := runs[..|runs| - 1];
      FlattenMembers(pre);
      forall v | v in Flatten(runs) ensures exists g :: 0 <= g < |runs| && v in runs[g] {
        if v in Flatten(pre) {
          var g :| 0 <= g < |pre| && v in pre[g];
          assert v in runs[g];
        }
      }
      forall v, g | 0 <= g < |runs| && v in runs[g] ensures v in Flatten(runs) {
        if g < |pre| {
          assert v in pre[g];
        }
      }
    }
  }

  /** Nodes of the same run in a row only add to the open group. */
  lemma {:induction false} SameStart(nodeReads: seq<Option<Read>>, cov: seq<int>, st: NormState, run: seq<nat>, s: int, bareIf: bool)
    requires Inputs(nodeReads, cov) && StateOk(|nodeReads|, st) && !st.aborted && st.startpos == s && s != -1
    requires forall k :: 0 <= k < |run| ==> run[k] < |nodeReads| && nodeReads[run[k]].Some? && nodeReads[run[k]].value.start == s
    ensures Positive(cov) && Readable(nodeReads, run)
    ensures Drain(nodeReads, cov, st, run, bareIf) == st.(total := st.total + SumCov(cov, run), members := st.members + run)
    decreases |run|
  {
    if run != [] {
      var st1 := Step(nodeReads, cov, st, run[0], bareIf);
      assert run == [run[0]] + run[1..];
      SameStart(nodeReads, cov, st1, run[1..], s, bareIf);
    } else {
      assert st.members + run == st.members;
    }
  }

  /** The first run read from the initial state opens the first group. */
  lemma {:induction false} FirstGroup(nodeReads: seq<Option<Read>>, cov: seq<int>, st: NormState, run: seq<nat>, s: int, bareIf: bool)
    requires Inputs(nodeReads, cov) && StateOk(|nodeReads|, st) && !st.aborted && st.startpos == -1 && st.members == []
    requires s != -1 && |run| > 0
    requires forall k :: 0 <= k < |run| ==> run[k] < |nodeReads| && nodeReads[run[k]].Some? && nodeReads[run[k]].value.start == s
    ensures Positive(cov) && Readable(nodeReads, run)
    ensures Drain(nodeReads, cov, st, run, bareIf) == st.(startpos := s, total := SumCov(cov, run), members := run)
  {
    var st1 := Step(nodeReads, cov, st, run[0], bareIf);
    SameStart(nodeReads, cov, st1, run[1..], s, bareIf);
    assert run == [run[0]] + run[1..];
  }

  /** A run with a smaller start closes the open group (its total recorded,
      its members divided by it) and opens a new one, which with the bare
      `if` holds its first node twice. */
  lemma {:induction false} NewGroup(nodeReads: seq<Option<Read>>, cov: seq<int>, st: NormState, run: seq<nat>, s: int, bareIf: bool)
    requires Inputs(nodeReads, cov) && StateOk(|nodeReads|, st) && !st.aborted && st.startpos != -1
    requires s != -1 && s < st.startpos && |run| > 0
    requires forall k :: 0 <= k < |run| ==> run[k] < |nodeReads| && nodeReads[run[k]].Some? && nodeReads[run[k]].value.start == s
    ensures Positive(cov) && Readable(nodeReads, run)
    ensures Drain(nodeReads, cov, st, run, bareIf)
      == NormState(s, GroupTotal(cov, run, true, bareIf), (if bareIf then [run[0]] else []) + run,
                   st.totals + [st.total], Divide(st.norm, cov, st.members, st.total), false)
  {
    var v := run[0];
    var c := cov[v] as real;
    var twice: seq<nat> := if bareIf then [v] else [];
    var st1 := Step(nodeReads, cov, st, v, bareIf);
    OpenGroup(nodeReads, cov, st, v, bareIf);
    SameStart(nodeReads, cov, st1, run[1..], s, bareIf);
    DrainFirst(nodeReads, cov, st, run, bareIf);
    var st2 := Drain(nodeReads, cov, st, run, bareIf);
    assert st2.total == GroupTotal(cov, run, true, bareIf) by {
      assert SumCov(cov, run) == c + SumCov(cov, run[1..]);
    }
    assert st2.members == twice + run by {
      assert run == [v] + run[1..];
      assert [v] + twice + run[1..] == twice + run;
    }
  }

  /** Draining a non-empty queue from a running state takes its first node
      and drains the rest. */
  lemma {:induction false} DrainFirst(nodeReads: seq<Option<Read>>, cov: seq<int>, st: NormState, q: seq<nat>, bareIf: bool)
    requires Inputs(nodeReads, cov) && StateOk(|nodeReads|, st) && Readable(nodeReads, q) && !st.aborted && q != []
    ensures Readable(nodeReads, q[1..])
    ensures Drain(nodeReads, cov, st, q, bareIf) == Drain(nodeReads, cov, Step(nodeReads, cov, st, q[0], bareIf), q[1..], bareIf)
  {
    assert forall k :: 0 <= k < |q[1..]| ==> q[1..][k] == q[k + 1];
  }

  /** The step for a node with a smaller start than the open group's. */
  lemma {:induction false} OpenGroup(nodeReads: seq<Option<Read>>, cov: seq<int>, st: NormState, v: nat, bareIf: bool)
    requires Inputs(nodeReads, cov) && StateOk(|nodeReads|, st) && !st.aborted && st.startpos != -1
    requires v < |nodeReads| && nodeReads[v].Some? && nodeReads[v].value.start < st.startpos
    ensures var c := cov[v] as real;
      Step(nodeReads, cov, st, v, bareIf)
        == NormState(nodeReads[v].value.start, c + (if bareIf then c else 0.0), [v] + (if bareIf then [v] else []),
                     st.totals + [st.total], Divide(st.norm, cov, st.members, st.total), false)
  {
  }

  /** The normalized map before the median scaling once every run's group
      is closed: the coverage of each node of a run over that group's total,
      every other entry as it was. */
  function Shares(cov: seq<int>, norm0: seq<real>, runs: seq<seq<nat>>, bareIf: bool): (r: seq<real>)
    requires Positive(cov) && |norm0| == |cov| && RunsIn(cov, runs)
    ensures |r| == |norm0|
    decreases |runs|
  {
    if runs == [] then norm0
    else
      var last := runs[|runs| - 1];
      Divide(Shares(cov, norm0, runs[..|runs| - 1], bareIf), cov, last, GroupTotal(cov, last, |runs| > 1, bareIf))
  }

  /** The totals of the runs are those of all runs but the last, followed
      by the last run's. */
  lemma {:induction false} GroupTotalsSnoc(cov: seq<int>, runs: seq<seq<nat>>, bareIf: bool)
    requires Positive(cov) && RunsIn(cov, runs) && |runs| > 0
    ensures GroupTotals(cov, runs, bareIf)
      == GroupTotals(cov, runs[..|runs| - 1], bareIf) + [GroupTotal(cov, runs[|runs| - 1], |runs| > 1, bareIf)]
  {
    var pre := runs[..|runs| - 1];
    forall g | 0 <= g < |pre| ensures pre[g] == runs[g] { }
  }

  /** Dividing depends only on which nodes are members. */
  lemma {:induction false} DivideSameMembers(norm: seq<real>, cov: seq<int>, a: seq<nat>, b: seq<nat>, total: real)
    requires |cov| == |norm| && total != 0.0 && forall v :: v in a <==> v in b
    ensures Divide(norm, cov, a, total) == Divide(norm, cov, b, total)
  {
  }

  /** The state after the whole queue: the totals of all groups recorded in
      order (the last one still open), the last run's nodes as members, and
      every earlier group divided by its total. */
  lemma {:induction false} DrainGroups(nodeReads: seq<Option<Read>>, cov: seq<int>, norm0: seq<real>,
                                      runs: seq<seq<nat>>, starts: seq<int>, bareIf: bool)
    requires Inputs(nodeReads, cov) && |norm0| == |nodeReads| && Groups(nodeReads, runs, starts) && |runs| > 0
    ensures Positive(cov) && Readable(nodeReads, Flatten(runs)) && RunsIn(cov, runs)
    ensures var st := Drain(nodeReads, cov, Init(norm0), Flatten(runs), bareIf);
      && !st.aborted
      && st.startpos == starts[|runs| - 1]
      && st.totals + [st.total] == GroupTotals(cov, runs, bareIf)
      && st.members == (if bareIf && |runs| > 1 then [runs[|runs| - 1][0]] else []) + runs[|runs| - 1]
      && st.norm == Shares(cov, norm0, runs[..|runs| - 1], bareIf)
    decreases |runs|
  {
    if |runs| == 1 {
      DrainOneRun(nodeReads, cov, norm0, runs, starts, bareIf);
    } else {
      var pre := runs[..|runs| - 1];
      GroupsPrefix(nodeReads, runs, starts);
      DrainGroups(nodeReads, cov, norm0, pre, starts[..|pre|], bareIf);
      DrainLastRun(nodeReads, cov, norm0, runs, starts, bareIf);
    }
  }

  /** All groups but the last are groups. */
  lemma GroupsPrefix(nodeReads: seq<Option<Read>>, runs: seq<seq<nat>>, starts: seq<int>)
    requires Groups(nodeReads, runs, starts) && |runs| > 0
    ensures Groups(nodeReads, runs[..|runs| - 1], starts[..|runs| - 1])
  {
  }

  /** The base case of DrainGroups: a single run opens the only group. */
  lemma DrainOneRun(nodeReads: seq<Option<Read>>, cov: seq<int>, norm0: seq<real>,
                    runs: seq<seq<nat>>, starts: seq<int>, bareIf: bool)
    requires Inputs(nodeReads, cov) && |norm0| == |nodeReads| && Groups(nodeReads, runs, starts) && |runs| == 1
    ensures Positive(cov) && Readable(nodeReads, Flatten(runs)) && RunsIn(cov, runs)
    ensures var st := Drain(nodeReads, cov, Init(norm0), Flatten(runs), bareIf);
      && !st.aborted
      && st.startpos == starts[0]
      && st.totals + [st.total] == GroupTotals(cov, runs, bareIf)
      && st.members == runs[0]
      && st.norm == Shares(cov, norm0, runs[..0], bareIf)
  {
    var run := runs[0];
    GroupsReadable(nodeReads, runs, starts);
    assert Flatten(runs) == run by {
      assert runs[..0] == [];
    }
    assert forall k :: 0 <= k < |run| ==>
      run[k] < |nodeReads| && nodeReads[run[k]].Some? && nodeReads[run[k]].value.start == starts[0];
    FirstGroup(nodeReads, cov, Init(norm0), run, starts[0], bareIf);
    assert GroupTotals(cov, runs, bareIf) == [GroupTotal(cov, run, false, bareIf)];
  }

  /** The queue of a list of groups holds only nodes with reads. */
  lemma GroupsReadable(nodeReads: seq<Option<Read>>, runs: seq<seq<nat>>, starts: seq<int>)
    requires Groups(nodeReads, runs, starts)
    ensures Readable(nodeReads, Flatten(runs))
    ensures forall k :: 0 <= k < |Flatten(runs)| ==> Flatten(runs)[k] < |nodeReads|
  {
    FlattenMembers(runs);
    forall k | 0 <= k < |Flatten(runs)| ensures Flatten(runs)[k] < |nodeReads| && nodeReads[Flatten(runs)[k]].Some? {
      assert Flatten(runs)[k] in Flatten(runs);
    }
  }

  /** The step of DrainGroups: from the state after all runs but the last,
      the last run closes the open group and opens its own. */
  lemma DrainLastRun(nodeReads: seq<Option<Read>>, cov: seq<int>, norm0: seq<real>,
                     runs: seq<seq<nat>>, starts: seq<int>, bareIf: bool)
    requires Inputs(nodeReads, cov) && |norm0| == |nodeReads| && Groups(nodeReads, runs, starts) && |runs| > 1
    requires var pre := runs[..|runs| - 1];
      && Readable(nodeReads, Flatten(pre)) && RunsIn(cov, pre)
      && var st := Drain(nodeReads, cov, Init(norm0), Flatten(pre), bareIf);
      && !st.aborted
      && st.startpos == starts[|pre| - 1]
      && st.totals + [st.total] == GroupTotals(cov, pre, bareIf)
      && st.members == (if bareIf && |pre| > 1 then [pre[|pre| - 1][0]] else []) + pre[|pre| - 1]
      && st.norm == Shares(cov, norm0, pre[..|pre| - 1], bareIf)
    ensures Positive(cov) && Readable(nodeReads, Flatten(runs)) && RunsIn(cov, runs)
    ensures var st := Drain(nodeReads, cov, Init(norm0), Flatten(runs), bareIf);
      && !st.aborted
      && st.startpos == starts[|runs| - 1]
      && st.totals + [st.total] == GroupTotals(cov, runs, bareIf)
      && st.members == (if bareIf && |runs| > 1 then [runs[|runs| - 1][0]] else []) + runs[|runs| - 1]
      && st.norm == Shares(cov, norm0, runs[..|runs| - 1], bareIf)
  {
    var last := runs[|runs| - 1];
    var pre := runs[..|runs| - 1];
    GroupsReadable(nodeReads, runs, starts);
    assert Flatten(runs) == Flatten(pre) + last;
    DrainConcat(nodeReads, cov, Init(norm0), Flatten(pre), last, bareIf);
    var st1 := Drain(nodeReads, cov, Init(norm0), Flatten(pre), bareIf);
    NewGroup(nodeReads, cov, st1, last, starts[|runs| - 1], bareIf);
    GroupsStep(cov, norm0, runs, bareIf, st1);
  }

  /** The inductive step of DrainGroups: closing the group of the run before
      the last records its total and divides it. */
  lemma {:induction false} GroupsStep(cov: seq<int>, norm0: seq<real>, runs: seq<seq<nat>>, bareIf: bool, st1: NormState)
    requires Positive(cov) && |norm0| == |cov| && RunsIn(cov, runs) && |runs| > 1
    requires StateOk(|cov|, st1)
    requires var pre := runs[..|runs| - 1];
      && st1.totals + [st1.total] == GroupTotals(cov, pre, bareIf)
      && st1.members == (if bareIf && |pre| > 1 then [pre[|pre| - 1][0]] else []) + pre[|pre| - 1]
      && st1.norm == Shares(cov, norm0, pre[..|pre| - 1], bareIf)
    ensures st1.totals + [st1.total] + [GroupTotal(cov, runs[|runs| - 1], true, bareIf)] == GroupTotals(cov, runs, bareIf)
    ensures Divide(st1.norm, cov, st1.members, st1.total) == Shares(cov, norm0, runs[..|runs| - 1], bareIf)
  {
    var pre := runs[..|runs| - 1];
    var p := |pre| - 1;
    GroupTotalsSnoc(cov, runs, bareIf);
    assert st1.total == GroupTotal(cov, pre[p], p > 0, bareIf) by {
      assert (st1.totals + [st1.total])[p] == st1.total;
    }
    DivideSameMembers(st1.norm, cov, st1.members, pre[p], st1.total);
    assert pre[..p] == runs[..|runs| - 1][..|pre| - 1];
  }

  /** Every node of run g gets its coverage over g's total, and every node in
      no run keeps its entry. Nodes of different runs have different starts,
      so no later group overwrites an earlier one. */
  lemma {:induction false} SharesAt(nodeReads: seq<Option<Read>>, cov: seq<int>, norm0: seq<real>,
                                   runs: seq<seq<nat>>, starts: seq<int>, bareIf: bool)
    requires Inputs(nodeReads, cov) && |norm0| == |nodeReads| && Groups(nodeReads, runs, starts)
    ensures Positive(cov) && RunsIn(cov, runs)
    ensures forall g, v :: 0 <= g < |runs| && v in runs[g] ==>
      Shares(cov, norm0, runs, bareIf)[v] == cov[v] as real / GroupTotal(cov, runs[g], g > 0, bareIf)
    ensures forall v :: 0 <= v < |norm0| && v !in Flatten(runs) ==> Shares(cov, norm0, runs, bareIf)[v] == norm0[v]
    decreases |runs|
  {
    if runs != [] {
      var last := |runs| - 1;
      var pre := runs[..last];
      assert Groups(nodeReads, pre, starts[..last]);
      SharesAt(nodeReads, cov, norm0, pre, starts[..last], bareIf);
      var sh := Shares(cov, norm0, runs, bareIf);
      forall g, v | 0 <= g < |runs| && v in runs[g]
        ensures sh[v] == cov[v] as real / GroupTotal(cov, runs[g], g > 0, bareIf)
      {
        if g < last {
          EarlierNotIn(nodeReads, runs, starts, g, v);
          assert pre[g] == runs[g];
        }
      }
      assert Flatten(runs) == Flatten(pre) + runs[last];
      forall v | 0 <= v < |norm0| && v !in Flatten(runs) ensures sh[v] == norm0[v] {
        assert v !in Flatten(pre) && v !in runs[last];
      }
    }
  }

  /** A node of an earlier run is not in the last run. */
  lemma {:induction false} EarlierNotIn(nodeReads: seq<Option<Read>>, runs: seq<seq<nat>>, starts: seq<int>, g: nat, v: nat)
    requires Groups(nodeReads, runs, starts) && g < |runs| - 1 && v in runs[g]
    ensures v !in runs[|runs| - 1]
  {
    var last := |runs| - 1;
    var l :| 0 <= l < |runs[g]| && runs[g][l] == v;
    forall k | 0 <= k < |runs[last]| ensures runs[last][k] != v {
      assert starts[last] < starts[g];
    }
  }

  /** normalize_coverage on a queue that yields the runs one after the other
      sets is_normalized, and leaves the shares of SharesAt scaled by the
      median of all group totals. */
  lemma {:induction false} NormalizedGroups(nodeReads: seq<Option<Read>>, cov: seq<int>, norm0: seq<real>,
                         runs: seq<seq<nat>>, starts: seq<int>, bareIf: bool)
    requires Inputs(nodeReads, cov) && |norm0| == |nodeReads| && Groups(nodeReads, runs, starts) && |runs| > 0
    ensures Positive(cov) && Readable(nodeReads, Flatten(runs)) && RunsIn(cov, runs)
    ensures Normalized(nodeReads, cov, norm0, Flatten(runs), bareIf)
      == (Scaled(Shares(cov, norm0, runs, bareIf), Median.Median(GroupTotals(cov, runs, bareIf))), true)
  {
    DrainGroups(nodeReads, cov, norm0, runs, starts, bareIf);
    var st := Drain(nodeReads, cov, Init(norm0), Flatten(runs), bareIf);
    var last := runs[|runs| - 1];
    assert st.total == GroupTotal(cov, last, |runs| > 1, bareIf) by {
      assert (st.totals + [st.total])[|runs| - 1] == st.total;
    }
    DivideSameMembers(st.norm, cov, st.members, last, st.total);
  }

  /** normalize_coverage that meets, after the runs, a node starting after
      the last group's start gives up there: is_normalized stays unset, every
      closed group keeps its coverage over its total, unscaled, the open
      group's members keep their old entries, and the rest of the queue is
      never looked at. */
  lemma {:induction false} AbortedGroups(nodeReads: seq<Option<Read>>, cov: seq<int>, norm0: seq<real>,
                         runs: seq<seq<nat>>, starts: seq<int>, v: nat, rest: seq<nat>, bareIf: bool)
    requires Inputs(nodeReads, cov) && |norm0| == |nodeReads| && Groups(nodeReads, runs, starts) && |runs| > 0
    requires v < |nodeReads| && nodeReads[v].Some? && nodeReads[v].value.start > starts[|runs| - 1]
    requires Readable(nodeReads, rest)
    ensures Positive(cov) && Readable(nodeReads, Flatten(runs) + [v] + rest) && RunsIn(cov, runs)
    ensures Normalized(nodeReads, cov, norm0, Flatten(runs) + [v] + rest, bareIf)
      == (Shares(cov, norm0, runs[..|runs| - 1], bareIf), false)
  {
    DrainGroups(nodeReads, cov, norm0, runs, starts, bareIf);
    var st := Drain(nodeReads, cov, Init(norm0), Flatten(runs), bareIf);
    var tail := [v] + rest;
    assert Readable(nodeReads, tail) by {
      forall k | 0 <= k < |tail| && tail[k] < |nodeReads| ensures nodeReads[tail[k]].Some? {
        if k > 0 {
          assert tail[k] == rest[k - 1];
        }
      }
    }
    DrainConcat(nodeReads, cov, Init(norm0), Flatten(runs), tail, bareIf);
    assert Flatten(runs) + [v] + rest == Flatten(runs) + tail;
    var st1 := Step(nodeReads, cov, st, v, bareIf);
    assert st1 == st.(aborted := true);
    DrainFirst(nodeReads, cov, st, tail, bareIf);
    assert tail[1..] == rest;
    AbortedStays(nodeReads, cov, st1, rest, bareIf);
  }

  /** The summed entries of x at the nodes of run. */
  function SumAt(x: seq<real>, run: seq<nat>): real
    requires forall k :: 0 <= k < |run| ==> run[k] < |x|
  {
    if run == [] then 0.0 else x[run[0]] + SumAt(x, run[1..])
  }

  lemma {:induction false} AddFractions(a: real, b: real, t: real)
    requires t > 0.0
    ensures a / t + b / t == (a + b) / t
  {
  }

  /** Entries that are coverage over t add up to the run's coverage over t. */
  lemma {:induction false} SumOfShares(cov: seq<int>, x: seq<real>, run: seq<nat>, t: real)
    requires Positive(cov) && |x| == |cov| && t > 0.0
    requires forall k :: 0 <= k < |run| ==> run[k] < |cov| && x[run[k]] == cov[run[k]] as real / t
    ensures SumAt(x, run) == SumCov(cov, run) / t
    decreases |run|
  {
    if run != [] {
      SumOfShares(cov, x, run[1..], t);
      AddFractions(cov[run[0]] as real, SumCov(cov, run[1..]), t);
    }
  }

  lemma {:induction false} OverItself(a: real)
    requires a > 0.0
    ensures a / a == 1.0
  {
  }

  lemma {:induction false} BelowOne(a: real, c: real)
    requires a > 0.0 && c > 0.0
    ensures a / (a + c) < 1.0
  {
  }

  /** With the intended `else if` the shares of every group add up to 1; as
      written, those of every group after the first add up to less than 1,
      because the group's total counts its first node twice. */
  lemma {:induction false} GroupSharesSum(nodeReads: seq<Option<Read>>, cov: seq<int>, norm0: seq<real>,
                       runs: seq<seq<nat>>, starts: seq<int>, bareIf: bool)
    requires Inputs(nodeReads, cov) && |norm0| == |nodeReads| && Groups(nodeReads, runs, starts)
    ensures Positive(cov) && RunsIn(cov, runs)
    ensures forall g :: 0 <= g < |runs| && (g == 0 || !bareIf) ==>
      SumAt(Shares(cov, norm0, runs, bareIf), runs[g]) == 1.0
    ensures forall g :: 0 < g < |runs| && bareIf ==>
      SumAt(Shares(cov, norm0, runs, bareIf), runs[g]) < 1.0
  {
    SharesAt(nodeReads, cov, norm0, runs, starts, bareIf);
    var sh := Shares(cov, norm0, runs, bareIf);
    forall g | 0 <= g < |runs| && (g == 0 || !bareIf) ensures SumAt(sh, runs[g]) == 1.0 {
      GroupSum(nodeReads, cov, norm0, runs, starts, bareIf, g);
      assert GroupTotal(cov, runs[g], g > 0, bareIf) == SumCov(cov, runs[g]);
      OverItself(SumCov(cov, runs[g]));
    }
    forall g | 0 < g < |runs| && bareIf ensures SumAt(sh, runs[g]) < 1.0 {
      GroupSum(nodeReads, cov, norm0, runs, starts, bareIf, g);
      BelowOne(SumCov(cov, runs[g]), cov[runs[g][0]] as real);
    }
  }

  /** The shares of one group add up to its summed coverage over its total. */
  lemma {:induction false} GroupSum(nodeReads: seq<Option<Read>>, cov: seq<int>, norm0: seq<real>,
                 runs: seq<seq<nat>>, starts: seq<int>, bareIf: bool, g: nat)
    requires Inputs(nodeReads, cov) && |norm0| == |nodeReads| && Groups(nodeReads, runs, starts) && g < |runs|
    ensures Positive(cov) && RunsIn(cov, runs)
    ensures SumAt(Shares(cov, norm0, runs, bareIf), runs[g]) == SumCov(cov, runs[g]) / GroupTotal(cov, runs[g], g > 0, bareIf)
  {
    SharesAt(nodeReads, cov, norm0, runs, starts, bareIf);
    var sh := Shares(cov, norm0, runs, bareIf);
    var t := GroupTotal(cov, runs[g], g > 0, bareIf);
    forall k | 0 <= k < |runs[g]| ensures sh[runs[g][k]] == cov[runs[g][k]] as real / t {
      assert runs[g][k] in runs[g];
    }
    SumOfShares(cov, sh, runs[g], t);
  }

  /** The graph of the two scenarios: nodes 0 and 1 start at 10, node 2 at
      20, with coverage 4, 6 and 5, popped in the order 2, 0, 1. */
  function ScenarioReads(): seq<Option<Read>> {
    [Some(Read(10, 5)), Some(Read(10, 5)), Some(Read(20, 5))]
  }

  /** The scenario's runs are groups: node 2 alone at 20, then nodes 0 and 1
      at 10. */
  lemma {:induction false} ScenarioGroups(nodeReads: seq<Option<Read>>, runs: seq<seq<nat>>, starts: seq<int>)
    requires nodeReads == ScenarioReads() && runs == [[2], [0, 1]] && starts == [20, 10]
    ensures Groups(nodeReads, runs, starts)
  {
  }

  /** The scenario's group totals: 5, then 10 counted once or 14 with node 0
      counted twice. */
  lemma {:induction false} ScenarioTotals(cov: seq<int>, runs: seq<seq<nat>>, bareIf: bool)
    requires cov == [4, 6, 5] && runs == [[2], [0, 1]]
    ensures Positive(cov) && RunsIn(cov, runs)
    ensures GroupTotal(cov, runs[0], false, bareIf) == 5.0
    ensures GroupTotal(cov, runs[1], true, bareIf) == if bareIf then 14.0 else 10.0
  {
    assert SumCov(cov, runs[1][1..]) == 6.0;
    assert SumCov(cov, runs[1]) == 10.0 && SumCov(cov, runs[0]) == 5.0;
  }

  /** The scenario's shares and totals, for either reading of line 137. */
  lemma {:induction false} ScenarioShares(cov: seq<int>, norm0: seq<real>, runs: seq<seq<nat>>, bareIf: bool)
    requires cov == [4, 6, 5] && norm0 == [0.0, 0.0, 0.0] && runs == [[2], [0, 1]]
    ensures Positive(cov) && RunsIn(cov, runs)
    ensures var t := if bareIf then 14.0 else 10.0;
      && Shares(cov, norm0, runs, bareIf) == [4.0 / t, 6.0 / t, 1.0]
      && GroupTotals(cov, runs, bareIf) == [5.0, t]
  {
    var starts := [20, 10];
    ScenarioGroups(ScenarioReads(), runs, starts);
    ScenarioTotals(cov, runs, bareIf);
    SharesAt(ScenarioReads(), cov, norm0, runs, starts, bareIf);
    var t := if bareIf then 14.0 else 10.0;
    var sh := Shares(cov, norm0, runs, bareIf);
    assert 0 in runs[1] && 1 in runs[1] && 2 in runs[0];
    assert sh[0] == 4.0 / t && sh[1] == 6.0 / t && sh[2] == 1.0;
    assert |sh| == 3;
    var tot := GroupTotals(cov, runs, bareIf);
    assert tot[0] == 5.0 && tot[1] == t;
  }

  /** The scenario's queue yields the runs one after the other. */
  lemma {:induction false} ScenarioFlatten(runs: seq<seq<nat>>, q: seq<nat>)
    requires runs == [[2], [0, 1]] && q == [2, 0, 1]
    ensures Flatten(runs) == q
  {
    assert runs[..1] == [[2]] && [[2]][..0] == [];
  }

  /** normalize_coverage on the scenario: the shares scaled by the median of
      the totals 5 and t, where t counts node 0 twice as written. */
  lemma {:induction false} ScenarioValue(nodeReads: seq<Option<Read>>, cov: seq<int>, norm0: seq<real>, q: seq<nat>,
                                        runs: seq<seq<nat>>, starts: seq<int>, bareIf: bool)
    requires nodeReads == ScenarioReads() && cov == [4, 6, 5] && norm0 == [0.0, 0.0, 0.0] && q == [2, 0, 1]
    requires runs == [[2], [0, 1]] && starts == [20, 10]
    ensures Inputs(nodeReads, cov) && Readable(nodeReads, q)
    ensures var t := if bareIf then 14.0 else 10.0;
      Normalized(nodeReads, cov, norm0, q, bareIf) == (Scaled([4.0 / t, 6.0 / t, 1.0], (5.0 + t) / 2.0), true)
  {
    var t := if bareIf then 14.0 else 10.0;
    ScenarioGroups(nodeReads, runs, starts);
    ScenarioFlatten(runs, q);
    NormalizedGroups(nodeReads, cov, norm0, runs, starts, bareIf);
    ScenarioShares(cov, norm0, runs, bareIf);
    PairMedian(5.0, t);
  }

  /** The median of two ordered totals is their mean. */
  lemma {:induction false} PairMedian(a: real, b: real)
    requires a <= b
    ensures Median.Median([a, b]) == (a + b) / 2.0
  {
    assert Sorted([a, b]);
    MedianOfSorted([a, b]);
  }

  /** Starts 20, 10, 10 with coverage 5, 4, 6 (nodes 2, 0, 1) as the code is
      written: the second group's total is 14 instead of 10, so the median is
      9.5 and the two nodes of that group end at 19/7 and 57/14, which add up
      to less than the lone node of the first group. */
  lemma {:induction false} ScenarioAsWritten(nodeReads: seq<Option<Read>>, cov: seq<int>, norm0: seq<real>, q: seq<nat>)
    requires nodeReads == ScenarioReads() && cov == [4, 6, 5] && norm0 == [0.0, 0.0, 0.0] && q == [2, 0, 1]
    ensures Inputs(nodeReads, cov) && Readable(nodeReads, q)
    ensures Normalized(nodeReads, cov, norm0, q, true) == ([19.0 / 7.0, 57.0 / 14.0, 9.5], true)
  {
    ScenarioValue(nodeReads, cov, norm0, q, [[2], [0, 1]], [20, 10], true);
    var r := Scaled([4.0 / 14.0, 6.0 / 14.0, 1.0], (5.0 + 14.0) / 2.0);
    assert r[0] == 19.0 / 7.0 && r[1] == 57.0 / 14.0 && r[2] == 9.5;
    assert r == [19.0 / 7.0, 57.0 / 14.0, 9.5];
  }

  /** The same input with the intended `else if`: totals 5 and 10, median
      7.5, and the group's two nodes end at 3 and 4.5, adding up to the lone
      node of the first group. */
  lemma {:induction false} ScenarioIntended(nodeReads: seq<Option<Read>>, cov: seq<int>, norm0: seq<real>, q: seq<nat>)
    requires nodeReads == ScenarioReads() && cov == [4, 6, 5] && norm0 == [0.0, 0.0, 0.0] && q == [2, 0, 1]
    ensures Inputs(nodeReads, cov) && Readable(nodeReads, q)
    ensures Normalized(nodeReads, cov, norm0, q, false) == ([3.0, 4.5, 7.5], true)
  {
    ScenarioValue(nodeReads, cov, norm0, q, [[2], [0, 1]], [20, 10], false);
    var r := Scaled([4.0 / 10.0, 6.0 / 10.0, 1.0], (5.0 + 10.0) / 2.0);
    assert r[0] == 3.0 && r[1] == 4.5 && r[2] == 7.5;
    assert r == [3.0, 4.5, 7.5];
  }
}
