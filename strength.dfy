/** The net strength shown under a node: the signed sum of the strengths of
    its incoming `supports` and `weakens` edges. */
module Strength {
  import opened Seqs
  import opened Graph

  /** A strength read with `undefined` counted as 0. */
  function StrengthOf(e: Edge): int {
    match e.strength
    case Some(s) => s
    case None => 0
  }

  /** Reference definition: the total strength of the edges of type `kind`
      that end at node `n`. */
  function TypedTotal(edges: seq<Edge>, n: int, kind: string): int
    decreases |edges|
  {
    if edges == [] then 0
    else
      var e := edges[|edges| - 1];
      TypedTotal(edges[..|edges| - 1], n, kind) + (if e.to == n && e.kind == kind then StrengthOf(e) else 0)
  }

  /** Incoming `supports` strength minus incoming `weakens` strength; zero
      for a node that no `supports` or `weakens` edge points at. */
  function NetStrength(edges: seq<Edge>, n: int): (s: int)
    ensures !HasStrengthEdges(edges, n) ==> s == 0
  {
    TypedTotalWithoutKind(edges, n, Supports);
    TypedTotalWithoutKind(edges, n, Weakens);
    TypedTotal(edges, n, Supports) - TypedTotal(edges, n, Weakens)
  }

  /** When no edge of type `kind` ends at `n`, the total is zero. */
  lemma {:induction false} TypedTotalWithoutKind(edges: seq<Edge>, n: int, kind: string)
    ensures (forall e :: e in edges && e.to == n ==> e.kind != kind) ==> TypedTotal(edges, n, kind) == 0
    decreases |edges|
  {
    if edges != [] {
      var init := edges[..|edges| - 1];
      assert forall e :: e in init ==> e in edges;
      TypedTotalWithoutKind(init, n, kind);
    }
  }

  /** Whether node `n` has an incoming strength-bearing edge, with or without a strength. */
  predicate HasStrengthEdges(edges: seq<Edge>, n: int) {
    exists e :: e in edges && e.to == n && IsStrengthBearing(e.kind)
  }

  /** `edges.filter(edge => edge.to === n && (edge.type === 'supports' || edge.type === 'weakens'))`. */
  function IncomingStrengthEdges(edges: seq<Edge>, n: int): (r: seq<Edge>)
    ensures forall e :: e in r <==> e in edges && e.to == n && IsStrengthBearing(e.kind)
    ensures |r| > 0 <==> HasStrengthEdges(edges, n)
    decreases |edges|
  {
    if edges == [] then []
    else
      var init, e := edges[..|edges| - 1], edges[|edges| - 1];
      assert edges == init + [e];
      var r := IncomingStrengthEdges(init, n) + (if e.to == n && IsStrengthBearing(e.kind) then [e] else []);
      assert |r| > 0 ==> r[0] in r;
      r
  }

  /** The filter above is `Filter` with the component's predicate: the same
      edges, with the same multiplicity, in the same order. */
  lemma {:induction false} IncomingStrengthEdgesIsFilter(edges: seq<Edge>, n: int)
    ensures IncomingStrengthEdges(edges, n) == Filter(edges, (e: Edge) => e.to == n && IsStrengthBearing(e.kind))
    decreases |edges|
  {
    if edges != [] {
      IncomingStrengthEdgesIsFilter(edges[..|edges| - 1], n);
    }
  }

  /** What one incoming edge adds to the running total in the `forEach` body:
      the net strength that edge alone gives its target, and nothing for an
      edge without a strength or of another type. */
  function Contribution(e: Edge): (c: int)
    ensures c == TypedTotal([e], e.to, Supports) - TypedTotal([e], e.to, Weakens)
    ensures e.strength.None? || !IsStrengthBearing(e.kind) ==> c == 0
  {
    assert [e][..0] == [];
    if e.strength.None? then 0
    else if e.kind == Supports then e.strength.value
    else if e.kind == Weakens then -e.strength.value
    else 0
  }

  function ContributionSum(es: seq<Edge>): int
    decreases |es|
  {
    if es == [] then 0 else ContributionSum(es[..|es| - 1]) + Contribution(es[|es| - 1])
  }

  /** Summing the contributions of the filtered incoming edges, as the
      component does, gives the reference net strength. */
  lemma {:induction false} IncomingSumIsNetStrength(edges: seq<Edge>, n: int)
    ensures ContributionSum(IncomingStrengthEdges(edges, n)) == NetStrength(edges, n)
    decreases |edges|
  {
    if edges != [] {
      var init, e := edges[..|edges| - 1], edges[|edges| - 1];
      IncomingSumIsNetStrength(init, n);
      assert edges == init + [e];
      NetStrengthAfterAppend(init, e, n);
      var rest := IncomingStrengthEdges(init, n);
      if e.to == n && IsStrengthBearing(e.kind) {
        assert IncomingStrengthEdges(edges, n) == rest + [e];
        assert (rest + [e])[..|rest|] == rest;
        assert ContributionSum(rest + [e]) == ContributionSum(rest) + Contribution(e);
      } else {
        assert IncomingStrengthEdges(edges, n) == rest;
        assert e.to == n ==> Contribution(e) == 0;
      }
    }
  }

  lemma {:induction false} TypedTotalConcat(a: seq<Edge>, b: seq<Edge>, n: int, kind: string)
    ensures TypedTotal(a + b, n, kind) == TypedTotal(a, n, kind) + TypedTotal(b, n, kind)
    decreases |b|
  {
    if b == [] {
      assert a + b == a;
    } else {
      var init := b[..|b| - 1];
      TypedTotalConcat(a, init, n, kind);
      assert (a + b)[..|a + b| - 1] == a + init;
    }
  }

  /** Net strength is additive over concatenated edge lists. */
  lemma NetStrengthConcat(a: seq<Edge>, b: seq<Edge>, n: int)
    ensures NetStrength(a + b, n) == NetStrength(a, n) + NetStrength(b, n)
  {
    TypedTotalConcat(a, b, n, Supports);
    TypedTotalConcat(a, b, n, Weakens);
  }

  /** Appending an edge changes the net strength of its target by the edge's
      signed strength and leaves every other node's net strength unchanged. */
  lemma NetStrengthAfterAppend(edges: seq<Edge>, e: Edge, n: int)
    ensures NetStrength(edges + [e], n) == NetStrength(edges, n) + (if e.to == n then Contribution(e) else 0)
  {
    NetStrengthConcat(edges, [e], n);
    assert [e][..0] == [];
  }

  /** Edges that do not end at `n`, or are not strength-bearing, never matter. */
  lemma {:induction false} NetStrengthOnlyIncoming(edges: seq<Edge>, n: int)
    ensures NetStrength(edges, n) == NetStrength(IncomingStrengthEdges(edges, n), n)
    decreases |edges|
  {
    if edges != [] {
      var init, e := edges[..|edges| - 1], edges[|edges| - 1];
      NetStrengthOnlyIncoming(init, n);
      var rest := IncomingStrengthEdges(init, n);
      assert NetStrength(edges, n) == NetStrength(init, n) + (if e.to == n then Contribution(e) else 0);
      if e.to == n && IsStrengthBearing(e.kind) {
        assert IncomingStrengthEdges(edges, n) == rest + [e];
        NetStrengthAfterAppend(rest, e, n);
      } else {
        assert IncomingStrengthEdges(edges, n) == rest;
      }
    }
  }

  /** A node with no incoming edges has net strength 0 and shows no strength. */
  lemma {:induction false} NoIncomingMeansZero(edges: seq<Edge>, n: int)
    requires forall e :: e in edges ==> e.to != n
    ensures NetStrength(edges, n) == 0
    ensures !HasStrengthEdges(edges, n)
    decreases |edges|
  {
    if edges != [] {
      var init := edges[..|edges| - 1];
      assert forall e :: e in init ==> e in edges;
      NoIncomingMeansZero(init, n);
    }
  }

  /** After the cascade of a deletion, nothing contributes to the deleted node's strength. */
  lemma DeletionClearsStrength(edges: seq<Edge>, n: int)
    ensures NetStrength(WithoutIncidentEdges(edges, n), n) == 0
    ensures !HasStrengthEdges(WithoutIncidentEdges(edges, n), n)
  {
    NoIncomingMeansZero(WithoutIncidentEdges(edges, n), n);
  }
}
