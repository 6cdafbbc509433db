/** Construction of the weighted proximity graph (main.py): canonical
    enumeration of candidate pairs from the neighbour lists, the composite
    edge weight, and the parallel edge and weight lists. */
module GraphBuilder {
  import opened Common
  import Categories
  import Victims

  /** The attributes of one event that the modelled comparators read. The
      crime category is whatever the (unmodelled) crime categoriser gave. */
  datatype Event = Event(crimeCategory: string, victim: Victims.Profile)

  /** Per-pair scores produced outside this model: the geodesic distance
      score, the exponential time-decay score, and the behaviour-code, weapon
      and secondary-crime comparators. */
  datatype External = External(distance: real, time: real, mocodes: real, weapon: real, secondary: real)

  /** The seven per-attribute scores of one candidate pair. */
  datatype Components = Components(
    distance: real, time: real, crime: real, mocodes: real,
    victim: real, weapon: real, secondary: real)

  const DistanceCoef: real := 0.25
  const TimeCoef: real := 0.1
  const CrimeCoef: real := 0.25
  const MocodesCoef: real := 0.1
  const VictimCoef: real := 0.1
  const WeaponCoef: real := 0.15
  const SecondaryCoef: real := 0.05

  lemma CoefficientsSumToOne()
    ensures DistanceCoef + TimeCoef + CrimeCoef + MocodesCoef + VictimCoef + WeaponCoef + SecondaryCoef == 1.0
  {
  }

  predicate AllInUnit(c: Components) {
    && InUnit(c.distance) && InUnit(c.time) && InUnit(c.crime) && InUnit(c.mocodes)
    && InUnit(c.victim) && InUnit(c.weapon) && InUnit(c.secondary)
  }

  predicate ExternalInUnit(x: External) {
    InUnit(x.distance) && InUnit(x.time) && InUnit(x.mocodes) && InUnit(x.weapon) && InUnit(x.secondary)
  }

  /** Every score of `c1` is at most the matching score of `c2`. */
  predicate Dominated(c1: Components, c2: Components) {
    && c1.distance <= c2.distance && c1.time <= c2.time && c1.crime <= c2.crime
    && c1.mocodes <= c2.mocodes && c1.victim <= c2.victim && c1.weapon <= c2.weapon
    && c1.secondary <= c2.secondary
  }

  /** The fixed convex combination of the seven scores. */
  function Composite(c: Components): (w: real)
    ensures AllInUnit(c) ==> InUnit(w)
    ensures c == Components(1.0, 1.0, 1.0, 1.0, 1.0, 1.0, 1.0) ==> w == 1.0
    ensures c == Components(0.0, 0.0, 0.0, 0.0, 0.0, 0.0, 0.0) ==> w == 0.0
  {
    c.distance * DistanceCoef + c.time * TimeCoef + c.crime * CrimeCoef + c.mocodes * MocodesCoef
    + c.victim * VictimCoef + c.weapon * WeaponCoef + c.secondary * SecondaryCoef
  }

  /** Raising any score never lowers the edge weight. */
  lemma CompositeMonotone(c1: Components, c2: Components)
    requires Dominated(c1, c2)
    ensures Composite(c1) <= Composite(c2)
  {
  }

  /** The scores of a pair as the graph builder computes them: the external
      ones as given, the crime-category and victim scores from the
      comparators as written. Every score is in [0, 1] once the external ones
      are and the victims' ages are at most a century apart. */
  function PairComponents(e1: Event, e2: Event, x: External): (c: Components)
    ensures c.crime == Categories.CompareCategories(e1.crimeCategory, e2.crimeCategory)
    ensures c.victim == Victims.CompareVictims(e1.victim, e2.victim)
    ensures AllInUnit(c) ==> ExternalInUnit(x)
    ensures ExternalInUnit(x) && Victims.AgeGapWithinCentury(e1.victim, e2.victim) ==> AllInUnit(c)
  {
    Categories.CompareCategoriesRange(e1.crimeCategory, e2.crimeCategory);
    Components(
      x.distance, x.time,
      Categories.CompareCategories(e1.crimeCategory, e2.crimeCategory),
      x.mocodes,
      Victims.CompareVictims(e1.victim, e2.victim),
      x.weapon, x.secondary)
  }

  /** The weight of the edge between events `i` and `j`: never above 1 when
      the external scores are in [0, 1], and in [0, 1] when the two victims'
      ages are also at most a century apart. */
  function EdgeWeight(events: seq<Event>, i: nat, j: nat, ext: (nat, nat) -> External): (w: real)
    requires i < |events| && j < |events|
    ensures ExternalInUnit(ext(i, j)) ==> w <= 1.0
    ensures ExternalInUnit(ext(i, j)) && Victims.AgeGapWithinCentury(events[i].victim, events[j].victim) ==> InUnit(w)
  {
    var c := PairComponents(events[i], events[j], ext(i, j));
    Composite(c)
  }

  /** Two events with identical crime category and fully matching victims,
      at distance score 1 and time score 1, get at least the share of those
      four terms in the combination. */
  lemma CoincidentEventsWeight(e1: Event, e2: Event, x: External)
    requires e1.crimeCategory == e2.crimeCategory && Victims.FullMatch(e1.victim, e2.victim)
    requires x.distance == 1.0 && x.time == 1.0 && ExternalInUnit(x)
    ensures Composite(PairComponents(e1, e2, x)) >= DistanceCoef + TimeCoef + CrimeCoef + VictimCoef
  {
  }

  /** Two events a lifetime and more apart in victim age, with unknown sex
      and descent, different non-aggression categories and all external
      scores 0, are joined by an edge of negative weight. */
  lemma NegativeEdgeWeight()
    ensures EdgeWeight([Event("roubo", Victims.Profile(Some(1), None, None)),
                        Event("furto", Victims.Profile(Some(200), None, None))],
                       0, 1, (i: nat, j: nat) => External(0.0, 0.0, 0.0, 0.0, 0.0)) < 0.0
  {
    var events := [Event("roubo", Victims.Profile(Some(1), None, None)),
                   Event("furto", Victims.Profile(Some(200), None, None))];
    assert !Categories.Contains(events[0].crimeCategory, Categories.Aggression);
    Victims.CompareVictimsNegative();
  }

  /** The scores of a pair with the comparators in their corrected form:
      partial credit between homicide and severe aggression, and the age
      score clamped at 0. All in [0, 1] exactly when the external ones are. */
  function PairComponentsCorrected(e1: Event, e2: Event, x: External): (c: Components)
    ensures c.crime == Categories.CompareCategoriesIntended(e1.crimeCategory, e2.crimeCategory)
    ensures c.victim == Victims.CompareVictimsClamped(e1.victim, e2.victim)
    ensures AllInUnit(c) <==> ExternalInUnit(x)
  {
    Components(
      x.distance, x.time,
      Categories.CompareCategoriesIntended(e1.crimeCategory, e2.crimeCategory),
      x.mocodes,
      Victims.CompareVictimsClamped(e1.victim, e2.victim),
      x.weapon, x.secondary)
  }

  /** The edge weight with the corrected comparators: in [0, 1] whenever the
      external scores are. */
  function EdgeWeightCorrected(events: seq<Event>, i: nat, j: nat, ext: (nat, nat) -> External): (w: real)
    requires i < |events| && j < |events|
    ensures ExternalInUnit(ext(i, j)) ==> InUnit(w)
  {
    Composite(PairComponentsCorrected(events[i], events[j], ext(i, j)))
  }

  /** The corrected scores never fall below the as-written ones, so neither
      does the corrected weight. */
  lemma CorrectedDominates(e1: Event, e2: Event, x: External)
    ensures Dominated(PairComponents(e1, e2, x), PairComponentsCorrected(e1, e2, x))
    ensures Composite(PairComponents(e1, e2, x)) <= Composite(PairComponentsCorrected(e1, e2, x))
  {
    Categories.CompareCategoriesRange(e1.crimeCategory, e2.crimeCategory);
    Categories.HomicideSevereAsWritten();
    var v1, v2 := e1.victim, e2.victim;
    assert Victims.AgeScore(v1.age, v2.age) <= Victims.AgeScoreClamped(v1.age, v2.age);
    CompositeMonotone(PairComponents(e1, e2, x), PairComponentsCorrected(e1, e2, x));
  }

  /** Away from the homicide/severe-aggression pair and with the victims'
      ages at most a century apart, the corrected and as-written weights are
      equal. */
  lemma CorrectedAgreesAsWritten(e1: Event, e2: Event, x: External)
    requires !Categories.IsHomicideSeverePair(e1.crimeCategory, e2.crimeCategory)
    requires Victims.AgeGapWithinCentury(e1.victim, e2.victim)
    ensures PairComponentsCorrected(e1, e2, x) == PairComponents(e1, e2, x)
  {
  }

  /** For homicide against severe aggression the corrected weight is higher
      by the crime coefficient times the missing partial credit of 0.25. */
  lemma HomicideSevereWeightGap(v1: Victims.Profile, v2: Victims.Profile, x: External)
    requires Victims.AgeGapWithinCentury(v1, v2)
    ensures Composite(PairComponentsCorrected(Event(Categories.Homicide, v1), Event(Categories.SevereAggression, v2), x))
         == Composite(PairComponents(Event(Categories.Homicide, v1), Event(Categories.SevereAggression, v2), x)) + CrimeCoef * 0.25
  {
    Categories.HomicideSevereAsWritten();
  }

  type Edge = (nat, nat)

  /** The graph as handed to the community detector: a fixed vertex count and
      the parallel lists of edges and their weights. */
  datatype Graph = Graph(vertexCount: nat, edges: seq<Edge>, weights: seq<real>)

  predicate RepeatFree<T(==)>(s: seq<T>) {
    forall a, b :: 0 <= a < b < |s| ==> s[a] != s[b]
  }

  /** Every index in every neighbour list names an event. */
  predicate NeighboursInRange(nbrs: seq<seq<nat>>) {
    forall i, t :: 0 <= i < |nbrs| && 0 <= t < |nbrs[i]| ==> nbrs[i][t] < |nbrs|
  }

  /** The edges one event contributes: `(i, j)` for each neighbour `j > i`, in
      the order of its neighbour list. */
  function RowPairs(i: nat, js: seq<nat>): (r: seq<Edge>)
    ensures |r| <= |js|
    ensures forall k :: 0 <= k < |r| ==> r[k].0 == i
  {
    if |js| == 0 then []
    else
      var front := js[..|js| - 1];
      var j := js[|js| - 1];
      assert js == front + [j];
      RowPairs(i, front) + (if i < j then [(i, j)] else [])
  }

  lemma RowPairsSnoc(i: nat, js: seq<nat>, j: nat)
    ensures RowPairs(i, js + [j]) == RowPairs(i, js) + (if i < j then [(i, j)] else [])
  {
    assert (js + [j])[..|js|] == js;
  }

  /** The edges contributed by events `0 .. i-1`, in enumeration order. */
  function PairsBefore(nbrs: seq<seq<nat>>, i: nat): (r: seq<Edge>)
    requires i <= |nbrs|
    ensures forall k :: 0 <= k < |r| ==> r[k].0 < i
  {
    if i == 0 then [] else PairsBefore(nbrs, i - 1) + RowPairs(i - 1, nbrs[i - 1])
  }

  /** All candidate edges: the pairs `(i, j)` with `i < j` and `j` in the
      neighbour list of `i`. */
  function Candidates(nbrs: seq<seq<nat>>): seq<Edge> {
    PairsBefore(nbrs, |nbrs|)
  }

  /** The row of event `i` holds exactly the pairs `(i, j)` with `j > i` a
      neighbour of `i`. */
  lemma {:induction false} RowPairsMembers(i: nat, js: seq<nat>)
    ensures forall e :: e in RowPairs(i, js) <==> e.0 == i && i < e.1 && e.1 in js
  {
    if |js| > 0 {
      var front := js[..|js| - 1];
      var j := js[|js| - 1];
      assert js == front + [j];
      RowPairsMembers(i, front);
    }
  }

  /** The first `i` rows hold exactly the pairs `(a, b)` with `a < i`,
      `a < b` and `b` a neighbour of `a`. */
  lemma {:induction false} PairsBeforeMembers(nbrs: seq<seq<nat>>, i: nat)
    requires i <= |nbrs|
    ensures forall e :: e in PairsBefore(nbrs, i) <==> e.0 < i && e.0 < e.1 && e.1 in nbrs[e.0]
  {
    if i > 0 {
      var left := PairsBefore(nbrs, i - 1);
      var right := RowPairs(i - 1, nbrs[i - 1]);
      assert PairsBefore(nbrs, i) == left + right;
      PairsBeforeMembers(nbrs, i - 1);
      RowPairsMembers(i - 1, nbrs[i - 1]);
      forall e: Edge
        ensures e in left + right <==> e.0 < i && e.0 < e.1 && e.1 in nbrs[e.0]
      {
        assert e in left + right <==> e in left || e in right;
      }
    }
  }

  /** The candidate edges are exactly the ordered neighbour pairs. */
  lemma CandidatesMembers(nbrs: seq<seq<nat>>)
    ensures forall e :: e in Candidates(nbrs) <==> e.0 < |nbrs| && e.0 < e.1 && e.1 in nbrs[e.0]
  {
    PairsBeforeMembers(nbrs, |nbrs|);
  }

  lemma {:induction false} RowPairsRepeatFree(i: nat, js: seq<nat>)
    requires RepeatFree(js)
    ensures RepeatFree(RowPairs(i, js))
  {
    if |js| > 0 {
      var front := js[..|js| - 1];
      var j := js[|js| - 1];
      assert RepeatFree(front);
      RowPairsRepeatFree(i, front);
      assert j !in front by {
        forall k | 0 <= k < |front| ensures front[k] != j {
          assert front[k] == js[k];
        }
      }
      RowPairsMembers(i, front);
      assert (i, j) !in RowPairs(i, front);
    }
  }

  /** Two repeat-free sequences with no element in common concatenate to a
      repeat-free sequence. */
  lemma AppendRepeatFree<T>(left: seq<T>, right: seq<T>)
    requires RepeatFree(left) && RepeatFree(right)
    requires forall a, b :: 0 <= a < |left| && 0 <= b < |right| ==> left[a] != right[b]
    ensures RepeatFree(left + right)
  {
    var both := left + right;
    forall a, b | 0 <= a < b < |both| ensures both[a] != both[b] {
      if b < |left| {
        assert both[a] == left[a] && both[b] == left[b];
      } else if a < |left| {
        assert both[a] == left[a] && both[b] == right[b - |left|];
      } else {
        assert both[a] == right[a - |left|] && both[b] == right[b - |left|];
      }
    }
  }

  /** With repeat-free neighbour lists no edge is enumerated twice. */
  lemma {:induction false} PairsBeforeRepeatFree(nbrs: seq<seq<nat>>, i: nat)
    requires i <= |nbrs|
    requires forall k :: 0 <= k < |nbrs| ==> RepeatFree(nbrs[k])
    ensures RepeatFree(PairsBefore(nbrs, i))
  {
    if i > 0 {
      PairsBeforeRepeatFree(nbrs, i - 1);
      RowPairsRepeatFree(i - 1, nbrs[i - 1]);
      var left: seq<Edge> := PairsBefore(nbrs, i - 1);
      var right: seq<Edge> := RowPairs(i - 1, nbrs[i - 1]);
      forall a, b | 0 <= a < |left| && 0 <= b < |right| ensures left[a] != right[b] {
        assert left[a].0 < i - 1 == right[b].0;
      }
      AppendRepeatFree(left, right);
    }
  }

  /** The neighbour relation is symmetric, as a radius query is. */
  predicate Symmetric(nbrs: seq<seq<nat>>) {
    forall i, j :: 0 <= i < |nbrs| && 0 <= j < |nbrs| ==> (j in nbrs[i] <==> i in nbrs[j])
  }

  /** For a symmetric neighbour relation each unordered pair of distinct
      neighbours becomes an edge oriented from the smaller index, and never
      the reverse one; with repeat-free neighbour lists that edge is listed
      exactly once. */
  lemma UnorderedPairOnce(nbrs: seq<seq<nat>>, i: nat, j: nat)
    requires Symmetric(nbrs)
    requires i < |nbrs| && j < |nbrs| && i != j && j in nbrs[i]
    ensures (if i < j then (i, j) else (j, i)) in Candidates(nbrs)
    ensures (if i < j then (j, i) else (i, j)) !in Candidates(nbrs)
    ensures (forall k :: 0 <= k < |nbrs| ==> RepeatFree(nbrs[k])) ==> RepeatFree(Candidates(nbrs))
  {
    CandidatesMembers(nbrs);
    if forall k :: 0 <= k < |nbrs| ==> RepeatFree(nbrs[k]) {
      PairsBeforeRepeatFree(nbrs, |nbrs|);
    }
  }

  /** A neighbour listed twice gives its edge twice. */
  lemma RepeatedNeighbourGivesEdgeTwice()
    ensures Candidates([[1, 1], [0]]) == [(0, 1), (0, 1)]
  {
    var nbrs: seq<seq<nat>> := [[1, 1], [0]];
    assert RowPairs(0, [1]) == [(0, 1)] by {
      assert [1][..0] == [];
    }
    assert RowPairs(0, [1, 1]) == [(0, 1), (0, 1)] by {
      assert [1, 1][..1] == [1];
    }
    assert RowPairs(1, [0]) == [] by {
      assert [0][..0] == [];
    }
    assert nbrs[0] == [1, 1] && nbrs[1] == [0];
    assert PairsBefore(nbrs, 1) == [(0, 1), (0, 1)];
    assert PairsBefore(nbrs, 2) == [(0, 1), (0, 1)];
  }

  /** An event with no neighbour but itself, and listed by no other event,
      is touched by no edge; it stays a vertex of the graph all the same. */
  lemma IsolatedEventHasNoEdge(nbrs: seq<seq<nat>>, v: nat)
    requires v < |nbrs|
    requires forall j :: j in nbrs[v] ==> j == v
    requires forall i :: 0 <= i < |nbrs| && i != v ==> v !in nbrs[i]
    ensures forall e :: e in Candidates(nbrs) ==> e.0 != v && e.1 != v
  {
    CandidatesMembers(nbrs);
  }

  /** The weight list runs parallel to the edge list: equal length, and the
      k-th weight is the composite weight of the k-th edge, whose endpoints
      are distinct events in increasing order. */
  ghost predicate Parallel(events: seq<Event>, edges: seq<Edge>, weights: seq<real>, ext: (nat, nat) -> External) {
    && |weights| == |edges|
    && forall k :: 0 <= k < |edges| ==>
         edges[k].0 < edges[k].1 < |events|
         && weights[k] == EdgeWeight(events, edges[k].0, edges[k].1, ext)
  }

  lemma ParallelAppend(events: seq<Event>, edges: seq<Edge>, weights: seq<real>, ext: (nat, nat) -> External,
                       i: nat, j: nat)
    requires Parallel(events, edges, weights, ext)
    requires i < j < |events|
    ensures Parallel(events, edges + [(i, j)], weights + [EdgeWeight(events, i, j, ext)], ext)
  {
    var edges', weights' := edges + [(i, j)], weights + [EdgeWeight(events, i, j, ext)];
    forall k | 0 <= k < |edges'|
      ensures edges'[k].0 < edges'[k].1 < |events|
      ensures weights'[k] == EdgeWeight(events, edges'[k].0, edges'[k].1, ext)
    {
      if k < |edges| {
        assert edges'[k] == edges[k] && weights'[k] == weights[k];
      }
    }
  }

  /** Every two events' victims are at most a century apart in age (or one
      age is unknown). */
  predicate AgesWithinCentury(events: seq<Event>) {
    forall a, b :: 0 <= a < |events| && 0 <= b < |events| ==>
      Victims.AgeGapWithinCentury(events[a].victim, events[b].victim)
  }

  lemma ParallelBounded(events: seq<Event>, edges: seq<Edge>, weights: seq<real>, ext: (nat, nat) -> External)
    requires Parallel(events, edges, weights, ext)
    requires forall i, j :: ExternalInUnit(ext(i, j))
    ensures forall k :: 0 <= k < |weights| ==> weights[k] <= 1.0
    ensures AgesWithinCentury(events) ==> forall k :: 0 <= k < |weights| ==> InUnit(weights[k])
  {
    forall k | 0 <= k < |weights|
      ensures weights[k] <= 1.0
      ensures AgesWithinCentury(events) ==> InUnit(weights[k])
    {
      assert ExternalInUnit(ext(edges[k].0, edges[k].1));
    }
  }

  /** Appends the edges and weights of event `i`: one `(i, j)` per neighbour
      `j > i`, in neighbour-list order. */
  method AddRow(events: seq<Event>, nbrs: seq<seq<nat>>, i: nat, ext: (nat, nat) -> External,
                edges0: seq<Edge>, weights0: seq<real>)
    returns (edges: seq<Edge>, weights: seq<real>)
    requires |nbrs| == |events| && i < |nbrs|
    requires NeighboursInRange(nbrs)
    requires Parallel(events, edges0, weights0, ext)
    ensures edges == edges0 + RowPairs(i, nbrs[i])
    ensures Parallel(events, edges, weights, ext)
  {
    edges, weights := edges0, weights0;
    var row := nbrs[i];
    var added: seq<Edge> := [];
    var t := 0;
    while t < |row|
      invariant 0 <= t <= |row|
      invariant added == RowPairs(i, row[..t])
      invariant edges == edges0 + added
      invariant Parallel(events, edges, weights, ext)
    {
      var j := row[t];
      assert j < |events| by { assert row[t] == nbrs[i][t]; }
      assert row[..t + 1] == row[..t] + [j];
      RowPairsSnoc(i, row[..t], j);
      if i < j {
        ParallelAppend(events, edges, weights, ext, i, j);
        assert edges0 + (added + [(i, j)]) == edges + [(i, j)];
        added := added + [(i, j)];
        edges := edges + [(i, j)];
        weights := weights + [EdgeWeight(events, i, j, ext)];
      }
      t := t + 1;
    }
    assert row[..|row|] == row;
  }

  /** Enumerates every event and its neighbour list, emitting edge `(i, j)`
      and its weight only when `i < j`; the graph is created with one vertex
      per event whatever the edges are. */
  method BuildGraph(events: seq<Event>, nbrs: seq<seq<nat>>, ext: (nat, nat) -> External)
    returns (g: Graph)
    requires |nbrs| == |events|
    requires NeighboursInRange(nbrs)
    ensures g.vertexCount == |events|
    ensures g.edges == Candidates(nbrs)
    ensures |g.weights| == |g.edges|
    ensures forall k :: 0 <= k < |g.edges| ==>
              g.edges[k].0 < g.edges[k].1 < g.vertexCount
              && g.weights[k] == EdgeWeight(events, g.edges[k].0, g.edges[k].1, ext)
    ensures (forall k :: 0 <= k < |nbrs| ==> RepeatFree(nbrs[k])) ==> RepeatFree(g.edges)
    ensures (forall i, j :: ExternalInUnit(ext(i, j))) ==> forall k :: 0 <= k < |g.weights| ==> g.weights[k] <= 1.0
    ensures (forall i, j :: ExternalInUnit(ext(i, j))) && AgesWithinCentury(events) ==>
              forall k :: 0 <= k < |g.weights| ==> InUnit(g.weights[k])
  {
    var edges: seq<Edge> := [];
    var weights: seq<real> := [];
    var i := 0;
    while i < |nbrs|
      invariant 0 <= i <= |nbrs|
      invariant edges == PairsBefore(nbrs, i)
      invariant Parallel(events, edges, weights, ext)
    {
      edges, weights := AddRow(events, nbrs, i, ext, edges, weights);
      i := i + 1;
    }
    g := Graph(|events|, edges, weights);
    if forall k :: 0 <= k < |nbrs| ==> RepeatFree(nbrs[k]) {
      PairsBeforeRepeatFree(nbrs, |nbrs|);
    }
    if forall i, j :: ExternalInUnit(ext(i, j)) {
      ParallelBounded(events, edges, weights, ext);
    }
  }
}
