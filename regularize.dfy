/** regularize: every arc into the sink is rerouted through a fresh
    pass-through (lambda) node. The arc u -> sink keeps its head and weight
    but leaves from the new node, and a new arc u -> lambda of weight 1 takes
    its place. The sink's in-arcs are visited in arc id order. */
module Regularize {
  import opened FlowGraph

  predicate IntoSink(a: Option<Arc>, sink: nat) {
    a.Some? && a.value.head == sink
  }

  /** The arc table with the k-th arc into the sink (counting from 0) leaving
      from the fresh node n + k instead of its tail. */
  function Retargeted(arcs: seq<Option<Arc>>, sink: nat, n: nat): (r: seq<Option<Arc>>)
    ensures |r| == |arcs|
  {
    if arcs == [] then []
    else
      var pre := arcs[..|arcs| - 1];
      var a := arcs[|arcs| - 1];
      Retargeted(pre, sink, n) + [if IntoSink(a, sink) then Some(a.value.(tail := n + InCount(pre, sink))) else a]
  }

  /** The new arcs: for the k-th arc u -> sink, the arc u -> n + k of weight 1
      and no flow. */
  function LambdaArcs(arcs: seq<Option<Arc>>, sink: nat, n: nat): (r: seq<Option<Arc>>)
    ensures |r| == InCount(arcs, sink)
  {
    if arcs == [] then []
    else
      var pre := arcs[..|arcs| - 1];
      var a := arcs[|arcs| - 1];
      LambdaArcs(pre, sink, n) + if IntoSink(a, sink) then [Some(Arc(a.value.tail, n + InCount(pre, sink), 1, 0.0))] else []
  }

  /** The graph after regularize: one read-less node of coverage 0 per arc
      into the sink, flagged childless, while every tail of an arc into the
      sink loses its childless flag. */
  function Regularized(g: Graph, sink: nat): (r: Graph)
    requires g.WellFormed() && sink < |g.nodeReads|
    ensures r.WellFormed()
    ensures |r.nodeReads| == |g.nodeReads| + InCount(g.arcs, sink)
    ensures |r.arcs| == |g.arcs| + InCount(g.arcs, sink)
  {
    var n := |g.nodeReads|;
    var m := InCount(g.arcs, sink);
    RegularizedArcsWithin(g.arcs, sink, n);
    Graph(
      g.nodeReads + seq(m, _ => None),
      g.coverage + seq(m, _ => 0),
      g.normalized + seq(m, _ => 0.0),
      seq(n, v requires 0 <= v < n => if ArcCount(g.arcs, v, sink) > 0 then false else g.childless[v]) + seq(m, _ => true),
      g.parentless + seq(m, _ => false),
      g.fake + seq(m, _ => false),
      Retargeted(g.arcs, sink, n) + LambdaArcs(g.arcs, sink, n))
  }

  /** Retargeting moves only the arcs into the sink, keeps every head,
      weight and flow, and numbers the new tails n, n + 1, ... in order. */
  lemma {:induction false} RetargetedShape(arcs: seq<Option<Arc>>, sink: nat, n: nat)
    ensures forall j :: 0 <= j < |arcs| ==>
      var r := Retargeted(arcs, sink, n)[j];
      if IntoSink(arcs[j], sink) then r == Some(arcs[j].value.(tail := n + InCount(arcs[..j], sink)))
      else r == arcs[j]
  {
    if arcs != [] {
      var pre := arcs[..|arcs| - 1];
      RetargetedShape(pre, sink, n);
      forall j | 0 <= j < |pre| ensures arcs[..j] == pre[..j] && arcs[j] == pre[j] { }
    }
  }

  lemma {:induction false} RetargetedCounts(arcs: seq<Option<Arc>>, sink: nat, n: nat, w: nat)
    requires ArcsWithin(arcs, n) && sink < n && w >= n
    ensures OutCount(Retargeted(arcs, sink, n), w) == if w < n + InCount(arcs, sink) then 1 else 0
    ensures InCount(Retargeted(arcs, sink, n), w) == 0
    ensures InCount(Retargeted(arcs, sink, n), sink) == InCount(arcs, sink)
  {
    if arcs != [] {
      var pre := arcs[..|arcs| - 1];
      var a := arcs[|arcs| - 1];
      RetargetedCounts(pre, sink, n, w);
      assert arcs == pre + [a];
      CountsSnoc(pre, a, w, sink);
      CountsSnoc(Retargeted(pre, sink, n), if IntoSink(a, sink) then Some(a.value.(tail := n + InCount(pre, sink))) else a, w, sink);
      CountsSnoc(Retargeted(pre, sink, n), if IntoSink(a, sink) then Some(a.value.(tail := n + InCount(pre, sink))) else a, w, w);
    }
  }

  lemma {:induction false} LambdaCounts(arcs: seq<Option<Arc>>, sink: nat, n: nat, w: nat)
    requires ArcsWithin(arcs, n) && sink < n && w >= n
    ensures InCount(LambdaArcs(arcs, sink, n), w) == if w < n + InCount(arcs, sink) then 1 else 0
    ensures OutCount(LambdaArcs(arcs, sink, n), w) == 0
    ensures InCount(LambdaArcs(arcs, sink, n), sink) == 0
  {
    if arcs != [] {
      var pre := arcs[..|arcs| - 1];
      var a := arcs[|arcs| - 1];
      var prev := LambdaArcs(pre, sink, n);
      LambdaCounts(pre, sink, n, w);
      CountsSnoc(pre, a, w, sink);
      if IntoSink(a, sink) {
        var x := Some(Arc(a.value.tail, n + InCount(pre, sink), 1, 0.0));
        CountsSnoc(prev, x, w, w);
        CountsSnoc(prev, x, w, sink);
      } else {
        assert prev + [] == prev;
      }
    }
  }

  /** The sink keeps its in-degree, and every new node passes flow through:
      exactly one arc enters it and exactly one leaves it. */
  lemma {:induction false} RegularizedCounts(g: Graph, sink: nat)
    requires g.WellFormed() && sink < |g.nodeReads|
    ensures var r := Regularized(g, sink); var m := InCount(g.arcs, sink);
      && InCount(r.arcs, sink) == m
      && forall w :: |g.nodeReads| <= w < |r.nodeReads| ==>
           r.nodeReads[w].None? && InCount(r.arcs, w) == 1 && OutCount(r.arcs, w) == 1
  {
    var n := |g.nodeReads|;
    var r := Regularized(g, sink);
    var ret := Retargeted(g.arcs, sink, n);
    var lam := LambdaArcs(g.arcs, sink, n);
    RetargetedCounts(g.arcs, sink, n, n);
    LambdaCounts(g.arcs, sink, n, n);
    CountsAppend(ret, lam, sink, sink);
    forall w | n <= w < |r.nodeReads|
      ensures r.nodeReads[w].None? && InCount(r.arcs, w) == 1 && OutCount(r.arcs, w) == 1
    {
      RetargetedCounts(g.arcs, sink, n, w);
      LambdaCounts(g.arcs, sink, n, w);
      CountsAppend(ret, lam, w, w);
    }
  }

  /** Every arc of the regularized table joins two of the old nodes or the
      new ones. */
  lemma {:induction false} RegularizedArcsWithin(arcs: seq<Option<Arc>>, sink: nat, n: nat)
    requires ArcsWithin(arcs, n) && sink < n
    ensures ArcsWithin(Retargeted(arcs, sink, n) + LambdaArcs(arcs, sink, n), n + InCount(arcs, sink))
  {
    var m := InCount(arcs, sink);
    RetargetedWithin(arcs, sink, n);
    LambdaShape(arcs, sink, n);
    var ret := Retargeted(arcs, sink, n);
    var lam := LambdaArcs(arcs, sink, n);
    forall j | 0 <= j < |lam| ensures lam[j].value.tail < n + m {
      assert lam[j] in lam;
      assert ArcCount(arcs, lam[j].value.tail, sink) > 0;
      if lam[j].value.tail >= n {
        ArcCountWithin(arcs, n, lam[j].value.tail, sink);
      }
    }
  }

  lemma {:induction false} RetargetedWithin(arcs: seq<Option<Arc>>, sink: nat, n: nat)
    requires ArcsWithin(arcs, n) && sink < n
    ensures ArcsWithin(Retargeted(arcs, sink, n), n + InCount(arcs, sink))
  {
    if arcs != [] {
      var pre := arcs[..|arcs| - 1];
      RetargetedWithin(pre, sink, n);
    }
  }

  /** Every lambda arc starts at the tail of an arc into the sink and ends at
      a new node. */
  lemma {:induction false} LambdaShape(arcs: seq<Option<Arc>>, sink: nat, n: nat)
    ensures forall a :: a in LambdaArcs(arcs, sink, n) ==>
      a.Some? && a.value.head >= n && a.value.head < n + InCount(arcs, sink) && a.value.weight == 1 &&
      a.value.flow == 0.0 && ArcCount(arcs, a.value.tail, sink) > 0
  {
    if arcs != [] {
      var pre := arcs[..|arcs| - 1];
      LambdaShape(pre, sink, n);
    }
  }

  /** The k-th arc into the sink, u -> sink, yields the k-th new arc
      u -> n + k. */
  lemma {:induction false} LambdaAt(arcs: seq<Option<Arc>>, sink: nat, n: nat, j: nat)
    requires j < |arcs| && IntoSink(arcs[j], sink)
    ensures InCount(arcs[..j], sink) < |LambdaArcs(arcs, sink, n)|
    ensures LambdaArcs(arcs, sink, n)[InCount(arcs[..j], sink)]
      == Some(Arc(arcs[j].value.tail, n + InCount(arcs[..j], sink), 1, 0.0))
    decreases |arcs|
  {
    var pre := arcs[..|arcs| - 1];
    var k := InCount(arcs[..j], sink);
    if j == |arcs| - 1 {
      assert arcs[..j] == pre;
    } else {
      LambdaAt(pre, sink, n, j);
      assert pre[..j] == arcs[..j] && pre[j] == arcs[j];
    }
  }

  /** Regularize turns the k-th arc u -> sink into u -> n + k -> sink: the
      old arc keeps its place and weight and now leaves n + k, and the new
      arc number k joins u to n + k. */
  lemma {:induction false} ReroutedThroughLambda(g: Graph, sink: nat, j: nat)
    requires g.WellFormed() && sink < |g.nodeReads| && j < |g.arcs| && IntoSink(g.arcs[j], sink)
    ensures var r := Regularized(g, sink); var n := |g.nodeReads|; var k := InCount(g.arcs[..j], sink);
      && |g.arcs| + k < |r.arcs|
      && r.arcs[j] == Some(g.arcs[j].value.(tail := n + k))
      && r.arcs[|g.arcs| + k] == Some(Arc(g.arcs[j].value.tail, n + k, 1, 0.0))
  {
    var n := |g.nodeReads|;
    RetargetedShape(g.arcs, sink, n);
    LambdaAt(g.arcs, sink, n, j);
  }

  /** A prefix never has more arcs into the sink than the whole table. */
  lemma {:induction false} InCountPrefix(arcs: seq<Option<Arc>>, sink: nat)
    ensures forall j :: 0 <= j <= |arcs| ==> InCount(arcs[..j], sink) <= InCount(arcs, sink)
  {
    forall j | 0 <= j <= |arcs| ensures InCount(arcs[..j], sink) <= InCount(arcs, sink) {
      assert arcs == arcs[..j] + arcs[j..];
      CountsAppend(arcs[..j], arcs[j..], sink, sink);
    }
  }

  /** After regularize every arc into the sink leaves from a fresh read-less
      node, and every other arc of the old table is as it was. */
  lemma {:induction false} SinkFedByLambdas(g: Graph, sink: nat)
    requires g.WellFormed() && sink < |g.nodeReads|
    ensures var r := Regularized(g, sink);
      && (forall j :: 0 <= j < |r.arcs| && IntoSink(r.arcs[j], sink) ==>
            r.arcs[j].value.tail >= |g.nodeReads| && r.arcs[j].value.tail < |r.nodeReads| &&
            r.nodeReads[r.arcs[j].value.tail].None?)
      && (forall j :: 0 <= j < |g.arcs| && !IntoSink(g.arcs[j], sink) ==> r.arcs[j] == g.arcs[j])
  {
    var n := |g.nodeReads|;
    var r := Regularized(g, sink);
    var ret := Retargeted(g.arcs, sink, n);
    var lam := LambdaArcs(g.arcs, sink, n);
    RetargetedShape(g.arcs, sink, n);
    LambdaShape(g.arcs, sink, n);
    forall j | 0 <= j < |r.arcs|
      ensures IntoSink(r.arcs[j], sink) ==> r.arcs[j].value.tail >= n
    {
      if j < |ret| {
        assert r.arcs[j] == ret[j];
      } else {
        assert r.arcs[j] == lam[j - |ret|];
        assert r.arcs[j] in lam;
      }
    }
  }

  /** One turn of the loop of regularize on arc j, an arc into the sink: a
      read-less node w of coverage 0 is added, the new arc u -> w of weight 1
      is appended, arc j now leaves from w, u loses its childless flag and w
      gets it. */
  function Reroute(r: Graph, j: nat): (s: Graph)
    requires r.WellFormed() && j < |r.arcs| && r.arcs[j].Some?
    ensures s.WellFormed()
  {
    var w := |r.nodeReads|;
    var u := r.arcs[j].value.tail;
    Graph(r.nodeReads + [None], r.coverage + [0], r.normalized + [0.0],
          (r.childless + [false])[u := false][w := true], r.parentless + [false], r.fake + [false],
          (r.arcs + [Some(Arc(u, w, 1, 0.0))])[j := Some(r.arcs[j].value.(tail := w))])
  }

  /** The graph once the loop of regularize has visited the arcs with ids
      below j: the table past j is untouched. */
  ghost function RegularizedUpTo(g: Graph, sink: nat, j: nat): Graph
    requires g.WellFormed() && j <= |g.arcs|
  {
    var n := |g.nodeReads|;
    var pre := g.arcs[..j];
    var m := InCount(pre, sink);
    Graph(
      g.nodeReads + seq(m, _ => None),
      g.coverage + seq(m, _ => 0),
      g.normalized + seq(m, _ => 0.0),
      seq(n, v requires 0 <= v < n => if ArcCount(pre, v, sink) > 0 then false else g.childless[v]) + seq(m, _ => true),
      g.parentless + seq(m, _ => false),
      g.fake + seq(m, _ => false),
      Retargeted(pre, sink, n) + g.arcs[j..] + LambdaArcs(pre, sink, n))
  }

  lemma {:induction false} RegularizedUpToStart(g: Graph, sink: nat)
    requires g.WellFormed()
    ensures RegularizedUpTo(g, sink, 0) == g
  {
    assert g.arcs[..0] == [];
    assert g.nodeReads + [] == g.nodeReads;
    assert g.coverage + [] == g.coverage;
    assert g.normalized + [] == g.normalized;
    assert g.parentless + [] == g.parentless;
    assert g.fake + [] == g.fake;
    assert g.arcs[0..] == g.arcs;
  }

  lemma {:induction false} RegularizedUpToEnd(g: Graph, sink: nat)
    requires g.WellFormed() && sink < |g.nodeReads|
    ensures RegularizedUpTo(g, sink, |g.arcs|) == Regularized(g, sink)
  {
    assert g.arcs[..|g.arcs|] == g.arcs;
    assert g.arcs[|g.arcs|..] == [];
  }

  /** The loop keeps the table well formed. */
  lemma {:induction false} RegularizedUpToWithin(g: Graph, sink: nat, j: nat)
    requires g.WellFormed() && sink < |g.nodeReads| && j <= |g.arcs|
    ensures RegularizedUpTo(g, sink, j).WellFormed()
  {
    var n := |g.nodeReads|;
    var pre := g.arcs[..j];
    var m := InCount(pre, sink);
    var ret := Retargeted(pre, sink, n);
    var lam := LambdaArcs(pre, sink, n);
    var rest := g.arcs[j..];
    RetargetedWithin(pre, sink, n);
    LambdaShape(pre, sink, n);
    forall k | 0 <= k < |lam| ensures lam[k].value.tail < n + m {
      assert lam[k] in lam;
      if lam[k].value.tail >= n {
        ArcCountWithin(pre, n, lam[k].value.tail, sink);
      }
    }
    assert ArcsWithin(rest, n + m) by {
      forall k | 0 <= k < |rest| && rest[k].Some? ensures rest[k].value.tail < n + m && rest[k].value.head < n + m {
        assert rest[k] == g.arcs[j + k];
      }
    }
    var all := ret + rest + lam;
    forall k | 0 <= k < |all| && all[k].Some? ensures all[k].value.tail < n + m && all[k].value.head < n + m {
      if k < |ret| {
        assert all[k] == ret[k];
      } else if k < |ret| + |rest| {
        assert all[k] == rest[k - |ret|];
      } else {
        assert all[k] == lam[k - |ret| - |rest|];
      }
    }
  }

  /** Turn j of the loop: an arc into the sink is rerouted, any other arc is
      left alone. */
  lemma {:induction false} RegularizeStep(g: Graph, sink: nat, j: nat)
    requires g.WellFormed() && sink < |g.nodeReads| && j < |g.arcs|
    ensures var r := RegularizedUpTo(g, sink, j);
      && r.WellFormed() && j < |r.arcs| && r.arcs[j] == g.arcs[j]
      && RegularizedUpTo(g, sink, j + 1) == if IntoSink(g.arcs[j], sink) then Reroute(r, j) else r
  {
    StepArcAt(g, sink, j);
    if IntoSink(g.arcs[j], sink) {
      StepNodes(g, sink, j);
      StepArcs(g, sink, j);
      StepChildless(g, sink, j);
    } else {
      StepSkips(g, sink, j);
    }
  }

  /** Before the loop visits arc j, the table still holds it at index j. */
  lemma {:induction false} StepArcAt(g: Graph, sink: nat, j: nat)
    requires g.WellFormed() && sink < |g.nodeReads| && j < |g.arcs|
    ensures var r := RegularizedUpTo(g, sink, j);
      r.WellFormed() && j < |r.arcs| && r.arcs[j] == g.arcs[j]
  {
    var n := |g.nodeReads|;
    var pre := g.arcs[..j];
    assert g.arcs[j..][0] == g.arcs[j];
    RetargetedWithin(pre, sink, n);
    RegularizedUpToWithin(g, sink, j);
  }

  /** An arc that does not enter the sink leaves the graph as it is. */
  lemma {:induction false} StepSkips(g: Graph, sink: nat, j: nat)
    requires g.WellFormed() && sink < |g.nodeReads| && j < |g.arcs| && !IntoSink(g.arcs[j], sink)
    ensures RegularizedUpTo(g, sink, j + 1) == RegularizedUpTo(g, sink, j)
  {
    var r := RegularizedUpTo(g, sink, j);
    var r' := RegularizedUpTo(g, sink, j + 1);
    var n := |g.nodeReads|;
    var pre := g.arcs[..j];
    var a := g.arcs[j];
    assert g.arcs[..j + 1] == pre + [a];
    SkipArc(pre, a, sink, n);
    assert g.arcs[j..] == [a] + g.arcs[j + 1..];
    assert r'.arcs == r.arcs;
    assert r'.childless == r.childless;
  }

  /** An arc that does not enter the sink is kept as it is and adds neither
      a new node, a new arc nor an arc into the sink. */
  lemma {:induction false} SkipArc(pre: seq<Option<Arc>>, a: Option<Arc>, sink: nat, n: nat)
    requires !IntoSink(a, sink)
    ensures InCount(pre + [a], sink) == InCount(pre, sink)
    ensures Retargeted(pre + [a], sink, n) == Retargeted(pre, sink, n) + [a]
    ensures LambdaArcs(pre + [a], sink, n) == LambdaArcs(pre, sink, n)
    ensures forall v :: ArcCount(pre + [a], v, sink) == ArcCount(pre, v, sink)
  {
    CountsSnoc(pre, a, 0, sink);
    assert (pre + [a])[..|pre|] == pre;
    forall v ensures ArcCount(pre + [a], v, sink) == ArcCount(pre, v, sink) {
      CountsSnoc(pre, a, v, sink);
    }
  }

  lemma {:induction false} StepNodes(g: Graph, sink: nat, j: nat)
    requires g.WellFormed() && sink < |g.nodeReads| && j < |g.arcs| && IntoSink(g.arcs[j], sink)
    ensures var r := RegularizedUpTo(g, sink, j); var r' := RegularizedUpTo(g, sink, j + 1);
      && r'.nodeReads == r.nodeReads + [None] && r'.coverage == r.coverage + [0]
      && r'.normalized == r.normalized + [0.0] && r'.parentless == r.parentless + [false]
      && r'.fake == r.fake + [false]
  {
    var pre := g.arcs[..j];
    assert g.arcs[..j + 1][..j] == pre;
    var m := InCount(pre, sink);
    assert InCount(g.arcs[..j + 1], sink) == m + 1;
    var none: seq<Option<Read>> := seq(m, _ => None);
    assert seq(m + 1, _ => None) == none + [None];
    assert seq(m + 1, _ => 0) == seq(m, _ => 0) + [0];
    assert seq(m + 1, _ => 0.0) == seq(m, _ => 0.0) + [0.0];
    assert seq(m + 1, _ => false) == seq(m, _ => false) + [false];
  }

  lemma {:induction false} StepArcs(g: Graph, sink: nat, j: nat)
    requires g.WellFormed() && sink < |g.nodeReads| && j < |g.arcs| && IntoSink(g.arcs[j], sink)
    ensures var r := RegularizedUpTo(g, sink, j);
      && r.WellFormed() && j < |r.arcs| && r.arcs[j] == g.arcs[j]
      && RegularizedUpTo(g, sink, j + 1).arcs == Reroute(r, j).arcs
  {
    var n := |g.nodeReads|;
    var pre := g.arcs[..j];
    var pre' := g.arcs[..j + 1];
    var a := g.arcs[j];
    var m := InCount(pre, sink);
    assert pre'[..j] == pre && pre'[j] == a;
    StepArcAt(g, sink, j);
    var ret := Retargeted(pre, sink, n);
    var lam := LambdaArcs(pre, sink, n);
    var w := n + m;
    var moved := Some(a.value.(tail := w));
    var added := Some(Arc(a.value.tail, w, 1, 0.0));
    assert Retargeted(pre', sink, n) == ret + [moved];
    assert LambdaArcs(pre', sink, n) == lam + [added];
    assert g.arcs[j..] == [a] + g.arcs[j + 1..];
    UpdateAfter(ret, a, g.arcs[j + 1..], lam + [added], moved);
  }

  /** Replacing the element right after a prefix. */
  lemma UpdateAfter(front: seq<Option<Arc>>, x: Option<Arc>, rest: seq<Option<Arc>>, back: seq<Option<Arc>>, y: Option<Arc>)
    ensures (front + ([x] + rest) + back)[|front| := y] == front + [y] + rest + back
  {
    var lhs := (front + ([x] + rest) + back)[|front| := y];
    var rhs := front + [y] + rest + back;
    forall i | 0 <= i < |lhs| ensures lhs[i] == rhs[i] {
      if i < |front| {
      } else if i == |front| {
      } else if i < |front| + 1 + |rest| {
        assert lhs[i] == rest[i - |front| - 1];
      } else {
        assert lhs[i] == back[i - |front| - 1 - |rest|];
      }
    }
  }

  lemma {:induction false} StepChildless(g: Graph, sink: nat, j: nat)
    requires g.WellFormed() && sink < |g.nodeReads| && j < |g.arcs| && IntoSink(g.arcs[j], sink)
    ensures var r := RegularizedUpTo(g, sink, j);
      && r.WellFormed() && j < |r.arcs| && r.arcs[j] == g.arcs[j]
      && RegularizedUpTo(g, sink, j + 1).childless == Reroute(r, j).childless
  {
    var n := |g.nodeReads|;
    var pre := g.arcs[..j];
    var pre' := g.arcs[..j + 1];
    var a := g.arcs[j];
    var u := a.value.tail;
    var m := InCount(pre, sink);
    assert pre'[..j] == pre && pre'[j] == a;
    RegularizedUpToWithin(g, sink, j);
    RetargetedWithin(pre, sink, n);
    var r := RegularizedUpTo(g, sink, j);
    assert r.arcs[j] == a;
    var c := seq(n, v requires 0 <= v < n => if ArcCount(pre, v, sink) > 0 then false else g.childless[v]);
    var c' := seq(n, v requires 0 <= v < n => if ArcCount(pre', v, sink) > 0 then false else g.childless[v]);
    assert c' == c[u := false];
    assert seq(m + 1, _ => true) == seq(m, _ => true) + [true];
    assert (c + seq(m, _ => true) + [false])[u := false][n + m := true] == c[u := false] + seq(m + 1, _ => true);
  }
}
