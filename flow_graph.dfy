/** The flow graph's value types: reads, arcs, the node and arc tables, and
    the degree counts that LEMON's countInArcs / countOutArcs compute. */
module FlowGraph {

  datatype Option<T> = None | Some(value: T)

  /** The genomic interval of a MethylRead: its start and length. */
  datatype Read = Read(start: int, length: int) {
    function End(): int { start + length }
  }

  /** An arc tail -> head with its effective length (weight) and its flow. */
  datatype Arc = Arc(tail: nat, head: nat, weight: int, flow: real)

  /** The node and arc tables of an MFGraph. Node n's attributes sit at index n
      of every node sequence; a node without a read has None. An erased arc
      stays in the arc table as None, so arc ids never shift. */
  datatype Graph = Graph(
    nodeReads: seq<Option<Read>>,
    coverage: seq<int>,
    normalized: seq<real>,
    childless: seq<bool>,
    parentless: seq<bool>,
    fake: seq<bool>,
    arcs: seq<Option<Arc>>)
  {
    ghost predicate WellFormed() {
      && |coverage| == |nodeReads|
      && |normalized| == |nodeReads|
      && |childless| == |nodeReads|
      && |parentless| == |nodeReads|
      && |fake| == |nodeReads|
      && ArcsWithin(arcs, |nodeReads|)
    }
  }

  /** Every live arc joins two of the first n nodes. */
  predicate ArcsWithin(arcs: seq<Option<Arc>>, n: nat) {
    forall j :: 0 <= j < |arcs| && arcs[j].Some? ==> arcs[j].value.tail < n && arcs[j].value.head < n
  }

  predicate Live(arcs: seq<Option<Arc>>, j: nat) {
    j < |arcs| && arcs[j].Some?
  }

  /** Every arc of p is live. */
  predicate AllLive(arcs: seq<Option<Arc>>, p: seq<nat>) {
    forall k :: 0 <= k < |p| ==> p[k] < |arcs| && arcs[p[k]].Some?
  }

  /** Number of live arcs leaving n (countOutArcs). */
  function OutCount(arcs: seq<Option<Arc>>, n: nat): nat {
    if arcs == [] then 0
    else
      var a := arcs[|arcs| - 1];
      OutCount(arcs[..|arcs| - 1], n) + if a.Some? && a.value.tail == n then 1 else 0
  }

  /** Number of live arcs entering n (countInArcs). */
  function InCount(arcs: seq<Option<Arc>>, n: nat): nat {
    if arcs == [] then 0
    else
      var a := arcs[|arcs| - 1];
      InCount(arcs[..|arcs| - 1], n) + if a.Some? && a.value.head == n then 1 else 0
  }

  /** Number of live arcs u -> v. */
  function ArcCount(arcs: seq<Option<Arc>>, u: nat, v: nat): nat {
    if arcs == [] then 0
    else
      var a := arcs[|arcs| - 1];
      ArcCount(arcs[..|arcs| - 1], u, v) + if a.Some? && a.value.tail == u && a.value.head == v then 1 else 0
  }

  lemma {:induction false} CountsAppend(a: seq<Option<Arc>>, b: seq<Option<Arc>>, u: nat, v: nat)
    ensures OutCount(a + b, u) == OutCount(a, u) + OutCount(b, u)
    ensures InCount(a + b, v) == InCount(a, v) + InCount(b, v)
    ensures ArcCount(a + b, u, v) == ArcCount(a, u, v) + ArcCount(b, u, v)
  {
    if b == [] {
      assert a + b == a;
    } else {
      var b' := b[..|b| - 1];
      assert (a + b)[..|a + b| - 1] == a + b';
      assert (a + b)[|a + b| - 1] == b[|b| - 1];
      CountsAppend(a, b', u, v);
    }
  }

  /** Appending one arc adds it to the counts it matches. */
  lemma {:induction false} CountsSnoc(a: seq<Option<Arc>>, x: Option<Arc>, u: nat, v: nat)
    ensures OutCount(a + [x], u) == OutCount(a, u) + if x.Some? && x.value.tail == u then 1 else 0
    ensures InCount(a + [x], v) == InCount(a, v) + if x.Some? && x.value.head == v then 1 else 0
    ensures ArcCount(a + [x], u, v) == ArcCount(a, u, v) + if x.Some? && x.value.tail == u && x.value.head == v then 1 else 0
  {
    assert (a + [x])[..|a|] == a;
  }

  /** A node is childless exactly when no live arc leaves it, parentless
      exactly when none enters it. */
  lemma {:induction false} CountZero(arcs: seq<Option<Arc>>, n: nat)
    ensures OutCount(arcs, n) == 0 <==> forall j :: 0 <= j < |arcs| && arcs[j].Some? ==> arcs[j].value.tail != n
    ensures InCount(arcs, n) == 0 <==> forall j :: 0 <= j < |arcs| && arcs[j].Some? ==> arcs[j].value.head != n
  {
    if arcs != [] {
      var p := arcs[..|arcs| - 1];
      CountZero(p, n);
      assert forall j :: 0 <= j < |p| ==> p[j] == arcs[j];
    }
  }

  /** An arc table within n nodes has no arc touching node n or beyond. */
  lemma {:induction false} NoArcsBeyond(arcs: seq<Option<Arc>>, n: nat, v: nat)
    requires ArcsWithin(arcs, n) && v >= n
    ensures OutCount(arcs, v) == 0 && InCount(arcs, v) == 0
  {
    CountZero(arcs, v);
  }

  lemma {:induction false} ArcCountBounds(arcs: seq<Option<Arc>>, u: nat, v: nat)
    ensures ArcCount(arcs, u, v) <= OutCount(arcs, u)
    ensures ArcCount(arcs, u, v) <= InCount(arcs, v)
  {
    if arcs != [] {
      ArcCountBounds(arcs[..|arcs| - 1], u, v);
    }
  }

  lemma {:induction false} ArcCountWithin(arcs: seq<Option<Arc>>, n: nat, u: nat, v: nat)
    requires ArcsWithin(arcs, n) && (u >= n || v >= n)
    ensures ArcCount(arcs, u, v) == 0
  {
    if arcs != [] {
      ArcCountWithin(arcs[..|arcs| - 1], n, u, v);
    }
  }

  /** A walk from u to v: a sequence of live arcs, each starting where the
      previous one ends. */
  predicate IsWalk(arcs: seq<Option<Arc>>, p: seq<nat>, u: nat, v: nat) {
    && AllLive(arcs, p)
    && if p == [] then u == v
       else
         && arcs[p[0]].value.tail == u
         && arcs[p[|p| - 1]].value.head == v
         && forall k {:trigger arcs[p[k]].value.head} :: 0 <= k < |p| - 1 ==> arcs[p[k]].value.head == arcs[p[k + 1]].value.tail
  }

  /** The walk p to v never leaves the same node twice and never leaves v:
      its arcs' tails are pairwise distinct and differ from v. */
  predicate Simple(arcs: seq<Option<Arc>>, p: seq<nat>, v: nat)
    requires AllLive(arcs, p)
  {
    && (forall k :: 0 <= k < |p| ==> arcs[p[k]].value.tail != v)
    && (forall k, l :: 0 <= k < l < |p| ==> arcs[p[k]].value.tail != arcs[p[l]].value.tail)
  }

  /** A simple walk never uses one arc twice. */
  lemma {:induction false} SimpleDistinct(arcs: seq<Option<Arc>>, p: seq<nat>, v: nat)
    requires AllLive(arcs, p)
    requires Simple(arcs, p, v)
    ensures forall k, l :: 0 <= k < l < |p| ==> p[k] != p[l]
  {
  }
}
