/** Ranking of communities (main.py): min-max normalisation of the community
    table, the weighted selection score, the three threshold tiers, their
    ordering, and the first-match tier label of every vertex. */
module Ranking {
  import opened Common

  /** One row of the community table: the community's id and the three
      selection measures that the (unmodelled) feature extractor reports. */
  datatype Community = Community(id: int, size: nat, density: real, spatialDensity: real)

  /** A community row extended with its normalised measures and its score. */
  datatype Scored = Scored(community: Community, sizeN: real, densityN: real, spatialN: real, score: real)

  function Minimum(xs: seq<real>): (m: real)
    requires |xs| > 0
    ensures m in xs
    ensures forall i :: 0 <= i < |xs| ==> m <= xs[i]
  {
    if |xs| == 1 then xs[0]
    else
      var m := Minimum(xs[1..]);
      assert forall i :: 1 <= i < |xs| ==> xs[i] == xs[1..][i - 1];
      if xs[0] <= m then xs[0] else m
  }

  function Maximum(xs: seq<real>): (m: real)
    requires |xs| > 0
    ensures m in xs
    ensures forall i :: 0 <= i < |xs| ==> xs[i] <= m
  {
    if |xs| == 1 then xs[0]
    else
      var m := Maximum(xs[1..]);
      assert forall i :: 1 <= i < |xs| ==> xs[i] == xs[1..][i - 1];
      if xs[0] >= m then xs[0] else m
  }

  /** The column range used as divisor; a zero range is replaced by 1, as
      scikit-learn's MinMaxScaler does, so a constant column maps to 0. */
  function Range(lo: real, hi: real): (d: real)
    requires lo <= hi
    ensures d > 0.0
  {
    if hi == lo then 1.0 else hi - lo
  }

  /** The inverse of scaling: the column value a normalised value stands for. */
  function Unscale(y: real, lo: real, hi: real): real {
    lo + y * (hi - lo)
  }

  /** One value of a column scaled by the column's minimum and maximum. */
  function Scale(x: real, lo: real, hi: real): (y: real)
    requires lo <= x <= hi
    ensures InUnit(y)
    ensures x == lo ==> y == 0.0
    ensures x == hi && lo < hi ==> y == 1.0
    ensures lo == hi ==> y == 0.0
    ensures x == Unscale(y, lo, hi)
  {
    var y := (x - lo) / Range(lo, hi);
    assert InUnit(y) by { DivideInUnit(x - lo, Range(lo, hi)); }
    assert x == Unscale(y, lo, hi) by {
      if hi != lo {
        assert y * (hi - lo) == x - lo;
      }
    }
    y
  }

  lemma DivideInUnit(a: real, d: real)
    requires d > 0.0 && 0.0 <= a <= d
    ensures InUnit(a / d)
  {
  }

  /** MinMaxScaler with the default feature range (0, 1), on one column. */
  function NormalizeColumn(xs: seq<real>): (ys: seq<real>)
    requires |xs| > 0
    ensures |ys| == |xs|
    ensures forall i :: 0 <= i < |xs| ==> InUnit(ys[i])
    ensures forall i :: 0 <= i < |xs| && xs[i] == Minimum(xs) ==> ys[i] == 0.0
    ensures forall i :: 0 <= i < |xs| && xs[i] == Maximum(xs) && Minimum(xs) < Maximum(xs) ==> ys[i] == 1.0
    ensures Minimum(xs) == Maximum(xs) ==> forall i :: 0 <= i < |xs| ==> ys[i] == 0.0
    ensures forall i :: 0 <= i < |xs| ==> ys[i] == Scale(xs[i], Minimum(xs), Maximum(xs))
  {
    var lo, hi := Minimum(xs), Maximum(xs);
    seq(|xs|, i requires 0 <= i < |xs| => Scale(xs[i], lo, hi))
  }

  /** Normalisation loses nothing on a column: each value is recovered from
      its normalised value and the column's minimum and maximum. */
  lemma NormalizeInverse(xs: seq<real>, i: nat)
    requires |xs| > 0 && i < |xs|
    ensures xs[i] == Unscale(NormalizeColumn(xs)[i], Minimum(xs), Maximum(xs))
  {
    var y := Scale(xs[i], Minimum(xs), Maximum(xs));
    assert NormalizeColumn(xs)[i] == y;
  }

  /** Normalisation preserves and reflects the order of a column that is not
      constant. */
  lemma NormalizePreservesOrder(xs: seq<real>, i: nat, j: nat)
    requires |xs| > 0 && i < |xs| && j < |xs|
    requires Minimum(xs) < Maximum(xs)
    ensures xs[i] <= xs[j] <==> NormalizeColumn(xs)[i] <= NormalizeColumn(xs)[j]
  {
    var yi, yj := NormalizeColumn(xs)[i], NormalizeColumn(xs)[j];
    NormalizeInverse(xs, i);
    NormalizeInverse(xs, j);
    UnscaleOrder(yi, yj, Minimum(xs), Maximum(xs));
  }

  lemma UnscaleOrder(a: real, b: real, lo: real, hi: real)
    requires lo < hi
    ensures a <= b <==> Unscale(a, lo, hi) <= Unscale(b, lo, hi)
  {
    var d := hi - lo;
    assert Unscale(b, lo, hi) - Unscale(a, lo, hi) == (b - a) * d;
    ProductSign(b - a, d);
  }

  /** The sign of a product with a positive factor is the sign of the other. */
  lemma ProductSign(x: real, d: real)
    requires d > 0.0
    ensures x >= 0.0 <==> x * d >= 0.0
  {
  }

  /** Even a constant column keeps order in the weak sense. */
  lemma NormalizeMonotone(xs: seq<real>, i: nat, j: nat)
    requires |xs| > 0 && i < |xs| && j < |xs|
    requires xs[i] <= xs[j]
    ensures NormalizeColumn(xs)[i] <= NormalizeColumn(xs)[j]
  {
    if Minimum(xs) < Maximum(xs) {
      NormalizePreservesOrder(xs, i, j);
    }
  }

  function Sizes(rows: seq<Community>): (col: seq<real>)
    ensures |col| == |rows| && forall i :: 0 <= i < |rows| ==> col[i] == rows[i].size as real
  {
    seq(|rows|, i requires 0 <= i < |rows| => rows[i].size as real)
  }

  function Densities(rows: seq<Community>): (col: seq<real>)
    ensures |col| == |rows| && forall i :: 0 <= i < |rows| ==> col[i] == rows[i].density
  {
    seq(|rows|, i requires 0 <= i < |rows| => rows[i].density)
  }

  function SpatialDensities(rows: seq<Community>): (col: seq<real>)
    ensures |col| == |rows| && forall i :: 0 <= i < |rows| ==> col[i] == rows[i].spatialDensity
  {
    seq(|rows|, i requires 0 <= i < |rows| => rows[i].spatialDensity)
  }

  const SizeWeight: real := 0.0
  const DensityWeight: real := 0.5
  const SpatialWeight: real := 0.5

  /** The selection score: a convex combination of the normalised measures,
      in which size has weight 0. */
  function SelectionScore(sizeN: real, densityN: real, spatialN: real): (s: real)
    ensures s == (densityN + spatialN) / 2.0
    ensures InUnit(densityN) && InUnit(spatialN) ==> InUnit(s)
  {
    SizeWeight * sizeN + DensityWeight * densityN + SpatialWeight * spatialN
  }

  /** The score ignores size: communities with equal normalised densities
      tie whatever their sizes. */
  lemma SelectionScoreIgnoresSize(a: real, b: real, densityN: real, spatialN: real)
    ensures SelectionScore(a, densityN, spatialN) == SelectionScore(b, densityN, spatialN)
  {
  }

  /** Normalises the three measure columns and scores every row. An empty
      table has no columns to scale, and the source fails on it. */
  function NormalizeTable(rows: seq<Community>): (r: Option<seq<Scored>>)
    ensures r.None? <==> |rows| == 0
    ensures r.Some? ==> |r.value| == |rows|
    ensures r.Some? ==> forall i :: 0 <= i < |rows| ==>
              && r.value[i].community == rows[i]
              && r.value[i].sizeN == NormalizeColumn(Sizes(rows))[i]
              && r.value[i].densityN == NormalizeColumn(Densities(rows))[i]
              && r.value[i].spatialN == NormalizeColumn(SpatialDensities(rows))[i]
              && r.value[i].score == SelectionScore(r.value[i].sizeN, r.value[i].densityN, r.value[i].spatialN)
              && InUnit(r.value[i].score)
  {
    if |rows| == 0 then None
    else
      var sizes, dens, spatial := NormalizeColumn(Sizes(rows)), NormalizeColumn(Densities(rows)),
                                  NormalizeColumn(SpatialDensities(rows));
      Some(seq(|rows|, i requires 0 <= i < |rows| =>
        Scored(rows[i], sizes[i], dens[i], spatial[i], SelectionScore(sizes[i], dens[i], spatial[i]))))
  }

  /** The densest and spatially tightest community, when it is both, gets the
      top score 1. */
  lemma TopCommunityScoresOne(rows: seq<Community>, k: nat)
    requires k < |rows|
    requires rows[k].density == Maximum(Densities(rows)) && Minimum(Densities(rows)) < Maximum(Densities(rows))
    requires rows[k].spatialDensity == Maximum(SpatialDensities(rows))
    requires Minimum(SpatialDensities(rows)) < Maximum(SpatialDensities(rows))
    ensures NormalizeTable(rows).Some? && NormalizeTable(rows).value[k].score == 1.0
  {
  }

  const FocalScore: real := 0.1
  const PriorityScore: real := 0.0105
  const AttentionScore: real := 0.005
  const FocalMinShare: real := 0.002
  const PriorityShare: real := 0.009
  const AttentionShare: real := 0.01

  /** Focal point: score at least 0.1 and size in [0.2%, 0.9%) of the events. */
  predicate IsFocal(s: Scored, total: nat) {
    && s.score >= FocalScore
    && s.community.size as real >= total as real * FocalMinShare
    && (s.community.size as real) < total as real * PriorityShare
  }

  /** Priority area: score at least 0.0105 and size at least 0.9% of the events. */
  predicate IsPriority(s: Scored, total: nat) {
    s.score >= PriorityScore && s.community.size as real >= total as real * PriorityShare
  }

  /** Attention area: score in [0.005, 0.0105) and size at least 1% of the events. */
  predicate IsAttention(s: Scored, total: nat) {
    && s.score >= AttentionScore && s.score < PriorityScore
    && s.community.size as real >= total as real * AttentionShare
  }

  /** No community satisfies two tier rules. */
  lemma TiersDisjoint(s: Scored, total: nat)
    ensures !(IsFocal(s, total) && IsPriority(s, total))
    ensures !(IsFocal(s, total) && IsAttention(s, total))
    ensures !(IsPriority(s, total) && IsAttention(s, total))
  {
  }

  datatype Tier = Focal | Priority | Attention

  predicate Meets(s: Scored, tier: Tier, total: nat) {
    match tier
    case Focal => IsFocal(s, total)
    case Priority => IsPriority(s, total)
    case Attention => IsAttention(s, total)
  }

  /** Boolean-mask selection: keeps the rows that meet the tier's rule, in
      table order. */
  function Filter(t: seq<Scored>, tier: Tier, total: nat): (r: seq<Scored>)
    ensures forall x :: x in r <==> x in t && Meets(x, tier, total)
    ensures forall x :: multiset(r)[x] == if Meets(x, tier, total) then multiset(t)[x] else 0
  {
    if |t| == 0 then []
    else
      var rest := Filter(t[1..], tier, total);
      assert t == [t[0]] + t[1..];
      if Meets(t[0], tier, total) then [t[0]] + rest else rest
  }

  /** `idx` lists, in increasing order, exactly the positions of `t` whose
      rows meet the tier's rule, and `r` holds those rows in that order. */
  predicate IsSelectionIndex(t: seq<Scored>, r: seq<Scored>, idx: seq<int>, tier: Tier, total: nat) {
    && |idx| == |r|
    && (forall k :: 0 <= k < |idx| ==> 0 <= idx[k] < |t| && r[k] == t[idx[k]])
    && (forall a, b :: 0 <= a < b < |idx| ==> idx[a] < idx[b])
    && (forall i :: 0 <= i < |t| ==> (Meets(t[i], tier, total) <==> i in idx))
  }

  /** `r` is the subsequence of `t` made of the rows meeting the tier's rule,
      in table order. */
  ghost predicate SelectedInOrder(t: seq<Scored>, r: seq<Scored>, tier: Tier, total: nat) {
    exists idx :: IsSelectionIndex(t, r, idx, tier, total)
  }

  /** Every position moved one place to the right. */
  function Shift(idx: seq<int>): (r: seq<int>)
    ensures |r| == |idx| && forall k :: 0 <= k < |idx| ==> r[k] == idx[k] + 1
  {
    seq(|idx|, k requires 0 <= k < |idx| => idx[k] + 1)
  }

  /** The positions in `Shift(idx)` are those one past the positions in `idx`. */
  lemma ShiftMembers(idx: seq<int>, i: int)
    ensures i in Shift(idx) <==> i - 1 in idx
  {
    var s := Shift(idx);
    if i - 1 in idx {
      var m :| 0 <= m < |idx| && idx[m] == i - 1;
      assert s[m] == i;
    }
    if i in s {
      var m :| 0 <= m < |s| && s[m] == i;
      assert idx[m] == i - 1;
    }
  }

  /** One selection step: a selection index of the tail, shifted, and
      preceded by position 0 when the head row qualifies, is one of the whole
      table. */
  lemma SelectionStep(t: seq<Scored>, rest: seq<Scored>, idx': seq<int>, tier: Tier, total: nat)
    requires |t| > 0
    requires IsSelectionIndex(t[1..], rest, idx', tier, total)
    ensures IsSelectionIndex(t, (if Meets(t[0], tier, total) then [t[0]] else []) + rest,
                             (if Meets(t[0], tier, total) then [0] else []) + Shift(idx'), tier, total)
  {
    var q := Meets(t[0], tier, total);
    var head: seq<int> := if q then [0] else [];
    var r := (if q then [t[0]] else []) + rest;
    var idx := head + Shift(idx');
    StepPositions(t, rest, idx', head, r, idx);
    StepIncreasing(idx', head, idx);
    forall i | 0 <= i < |t| ensures Meets(t[i], tier, total) <==> i in idx {
      StepMember(t, idx', tier, total, head, idx, i);
    }
  }

  lemma StepPositions(t: seq<Scored>, rest: seq<Scored>, idx': seq<int>, head: seq<int>, r: seq<Scored>, idx: seq<int>)
    requires |t| > 0 && |idx'| == |rest|
    requires forall k :: 0 <= k < |idx'| ==> 0 <= idx'[k] < |t| - 1 && rest[k] == t[1..][idx'[k]]
    requires head == [] || head == [0]
    requires r == (if head == [] then [] else [t[0]]) + rest
    requires idx == head + Shift(idx')
    ensures |idx| == |r|
    ensures forall k :: 0 <= k < |idx| ==> 0 <= idx[k] < |t| && r[k] == t[idx[k]]
  {
    forall k | 0 <= k < |idx| ensures 0 <= idx[k] < |t| && r[k] == t[idx[k]] {
      if k >= |head| {
        var m := k - |head|;
        assert idx[k] == idx'[m] + 1 && r[k] == rest[m];
      }
    }
  }

  lemma StepIncreasing(idx': seq<int>, head: seq<int>, idx: seq<int>)
    requires forall k :: 0 <= k < |idx'| ==> 0 <= idx'[k]
    requires forall a, b :: 0 <= a < b < |idx'| ==> idx'[a] < idx'[b]
    requires head == [] || head == [0]
    requires idx == head + Shift(idx')
    ensures forall a, b :: 0 <= a < b < |idx| ==> idx[a] < idx[b]
  {
    forall a, b | 0 <= a < b < |idx| ensures idx[a] < idx[b] {
      assert idx[b] == idx'[b - |head|] + 1;
      if a >= |head| {
        assert idx[a] == idx'[a - |head|] + 1;
      }
    }
  }

  lemma StepMember(t: seq<Scored>, idx': seq<int>, tier: Tier, total: nat, head: seq<int>, idx: seq<int>, i: int)
    requires 0 <= i < |t|
    requires forall k :: 0 <= k < |idx'| ==> 0 <= idx'[k]
    requires forall i :: 0 <= i < |t| - 1 ==> (Meets(t[1..][i], tier, total) <==> i in idx')
    requires head == (if Meets(t[0], tier, total) then [0] else [])
    requires idx == head + Shift(idx')
    ensures Meets(t[i], tier, total) <==> i in idx
  {
    ShiftMembers(idx', i);
    if i == 0 {
      assert 0 !in Shift(idx');
    } else {
      assert t[i] == t[1..][i - 1];
    }
  }

  /** The mask selection keeps exactly the qualifying rows, in table order. */
  lemma {:induction false} FilterInOrder(t: seq<Scored>, tier: Tier, total: nat)
    ensures SelectedInOrder(t, Filter(t, tier, total), tier, total)
  {
    if |t| == 0 {
      assert IsSelectionIndex(t, [], [], tier, total);
    } else {
      var rest := Filter(t[1..], tier, total);
      FilterInOrder(t[1..], tier, total);
      var idx' :| IsSelectionIndex(t[1..], rest, idx', tier, total);
      SelectionStep(t, rest, idx', tier, total);
      assert Filter(t, tier, total) == (if Meets(t[0], tier, total) then [t[0]] else []) + rest;
    }
  }

  predicate SortedByScoreDesc(s: seq<Scored>) {
    forall a, b :: 0 <= a < b < |s| ==> s[a].score >= s[b].score
  }

  /** Inserts `x` before the first row of lower score. */
  function Insert(x: Scored, s: seq<Scored>): (r: seq<Scored>)
    requires SortedByScoreDesc(s)
    ensures SortedByScoreDesc(r)
    ensures multiset(r) == multiset(s) + multiset{x}
    ensures |r| == |s| + 1
    ensures |s| > 0 ==> r[0] == x || r[0] == s[0]
  {
    if |s| == 0 then [x]
    else if x.score >= s[0].score then [x] + s
    else
      var rest := Insert(x, s[1..]);
      assert s == [s[0]] + s[1..];
      [s[0]] + rest
  }

  /** Sorting by descending score (the order of equal scores is not promised
      by the source; this one keeps table order). */
  function SortByScoreDesc(s: seq<Scored>): (r: seq<Scored>)
    ensures SortedByScoreDesc(r)
    ensures multiset(r) == multiset(s)
  {
    if |s| == 0 then []
    else
      assert s == [s[0]] + s[1..];
      Insert(s[0], SortByScoreDesc(s[1..]))
  }

  /** The three tiers, each a view of the scored table. */
  datatype Tiers = Tiers(focal: seq<Scored>, priority: seq<Scored>, attention: seq<Scored>)

  /** Focal points as the source leaves them: the sort computed for them is
      assigned to another variable and then overwritten, so they stay in
      table order. */
  function FocalPointsAsWritten(t: seq<Scored>, total: nat): (r: seq<Scored>)
    ensures forall x :: x in r <==> x in t && IsFocal(x, total)
    ensures SelectedInOrder(t, r, Focal, total)
  {
    FilterInOrder(t, Focal, total);
    Filter(t, Focal, total)
  }

  /** Two focal communities listed in ascending score stay that way. */
  lemma FocalPointsAsWrittenUnsorted()
    ensures !SortedByScoreDesc(FocalPointsAsWritten(
              [Scored(Community(0, 50, 0.2, 0.2), 0.0, 0.2, 0.2, 0.2),
               Scored(Community(1, 60, 0.3, 0.3), 0.0, 0.3, 0.3, 0.3)], 15000))
  {
    var a := Scored(Community(0, 50, 0.2, 0.2), 0.0, 0.2, 0.2, 0.2);
    var b := Scored(Community(1, 60, 0.3, 0.3), 0.0, 0.3, 0.3, 0.3);
    assert IsFocal(a, 15000) && IsFocal(b, 15000);
    assert [b][1..] == [];
    assert Filter([b], Focal, 15000) == [b];
    assert [a, b][1..] == [b];
    assert Filter([a, b], Focal, 15000) == [a, b];
  }

  /** Focal points sorted by descending score, as the other two tiers are. */
  function FocalPoints(t: seq<Scored>, total: nat): (r: seq<Scored>)
    ensures SortedByScoreDesc(r)
    ensures multiset(r) == multiset(FocalPointsAsWritten(t, total))
    ensures forall x :: x in r <==> x in t && IsFocal(x, total)
  {
    SortByScoreDesc(Filter(t, Focal, total))
  }

  function PriorityAreas(t: seq<Scored>, total: nat): (r: seq<Scored>)
    ensures SortedByScoreDesc(r)
    ensures forall x :: multiset(r)[x] == if IsPriority(x, total) then multiset(t)[x] else 0
  {
    SortByScoreDesc(Filter(t, Priority, total))
  }

  function AttentionAreas(t: seq<Scored>, total: nat): (r: seq<Scored>)
    ensures SortedByScoreDesc(r)
    ensures forall x :: multiset(r)[x] == if IsAttention(x, total) then multiset(t)[x] else 0
  {
    SortByScoreDesc(Filter(t, Attention, total))
  }

  /** Normalises and scores the community table, then selects the three tiers
      by their threshold rules. `total` is the number of events. The focal
      points stay in table order; the other two tiers are sorted. */
  function Classify(rows: seq<Community>, total: nat): (r: Option<Tiers>)
    ensures r.None? <==> |rows| == 0
    ensures r.Some? ==> SelectedInOrder(NormalizeTable(rows).value, r.value.focal, Focal, total)
    ensures r.Some? ==> SortedByScoreDesc(r.value.priority)
    ensures r.Some? ==> SortedByScoreDesc(r.value.attention)
    ensures r.Some? ==> forall x ::
              && (x in r.value.focal <==> x in NormalizeTable(rows).value && IsFocal(x, total))
              && (x in r.value.priority <==> x in NormalizeTable(rows).value && IsPriority(x, total))
              && (x in r.value.attention <==> x in NormalizeTable(rows).value && IsAttention(x, total))
    ensures r.Some? ==> forall x ::
              && multiset(r.value.priority)[x] == (if IsPriority(x, total) then multiset(NormalizeTable(rows).value)[x] else 0)
              && multiset(r.value.attention)[x] == (if IsAttention(x, total) then multiset(NormalizeTable(rows).value)[x] else 0)
  {
    match NormalizeTable(rows)
    case None => None
    case Some(t) =>
      var p, a := PriorityAreas(t, total), AttentionAreas(t, total);
      assert forall x :: x in p <==> multiset(p)[x] > 0;
      assert forall x :: x in a <==> multiset(a)[x] > 0;
      assert forall x :: x in t <==> multiset(t)[x] > 0;
      Some(Tiers(FocalPointsAsWritten(t, total), p, a))
  }

  /** The tier label a vertex receives. */
  datatype Label = FocalPoint | PriorityArea | AttentionArea | Ordinary

  function Ids(s: seq<Scored>): set<int> {
    set x | x in s :: x.community.id
  }

  /** First match wins, in the order focal point, priority area, attention
      area; a community in no tier is ordinary. */
  function LabelOf(c: int, tiers: Tiers): Label {
    if c in Ids(tiers.focal) then FocalPoint
    else if c in Ids(tiers.priority) then PriorityArea
    else if c in Ids(tiers.attention) then AttentionArea
    else Ordinary
  }

  /** Labels every vertex by the tier of its community. */
  method LabelVertices(membership: seq<int>, tiers: Tiers) returns (labels: seq<Label>)
    ensures |labels| == |membership|
    ensures forall v :: 0 <= v < |membership| ==>
              (labels[v] == FocalPoint <==> membership[v] in Ids(tiers.focal))
              && (labels[v] == PriorityArea <==>
                    membership[v] !in Ids(tiers.focal) && membership[v] in Ids(tiers.priority))
              && (labels[v] == AttentionArea <==>
                    membership[v] !in Ids(tiers.focal) && membership[v] !in Ids(tiers.priority)
                    && membership[v] in Ids(tiers.attention))
  {
    labels := [];
    var v := 0;
    while v < |membership|
      invariant 0 <= v <= |membership|
      invariant |labels| == v
      invariant forall u :: 0 <= u < v ==> labels[u] == LabelOf(membership[u], tiers)
    {
      labels := labels + [LabelOf(membership[v], tiers)];
      v := v + 1;
    }
  }

  predicate UniqueIds(rows: seq<Community>) {
    forall a, b :: 0 <= a < |rows| && 0 <= b < |rows| && rows[a].id == rows[b].id ==> a == b
  }

  /** A community id lies in a tier's id set exactly when its own row meets
      that tier's rule. */
  lemma InTierIds(rows: seq<Community>, t: seq<Scored>, members: seq<Scored>, tier: Tier, total: nat, k: nat)
    requires UniqueIds(rows)
    requires |t| == |rows| && forall i :: 0 <= i < |rows| ==> t[i].community == rows[i]
    requires forall x :: x in members <==> x in t && Meets(x, tier, total)
    requires k < |rows|
    ensures rows[k].id in Ids(members) <==> Meets(t[k], tier, total)
  {
    if rows[k].id in Ids(members) {
      var x :| x in members && x.community.id == rows[k].id;
      var i :| 0 <= i < |t| && t[i] == x;
      assert rows[i].id == rows[k].id;
    } else {
      assert t[k] in t;
    }
  }

  /** With unique community ids the label of a community's vertices is the
      tier its own row qualifies for: the first-match order never decides. */
  lemma LabelIsOwnTier(rows: seq<Community>, total: nat, tiers: Tiers, k: nat)
    requires UniqueIds(rows)
    requires Classify(rows, total) == Some(tiers)
    requires k < |rows|
    ensures var s := NormalizeTable(rows).value[k];
            && (LabelOf(rows[k].id, tiers) == FocalPoint <==> IsFocal(s, total))
            && (LabelOf(rows[k].id, tiers) == PriorityArea <==> IsPriority(s, total))
            && (LabelOf(rows[k].id, tiers) == AttentionArea <==> IsAttention(s, total))
            && (LabelOf(rows[k].id, tiers) == Ordinary <==>
                  !IsFocal(s, total) && !IsPriority(s, total) && !IsAttention(s, total))
  {
    var t := NormalizeTable(rows).value;
    InTierIds(rows, t, tiers.focal, Focal, total, k);
    InTierIds(rows, t, tiers.priority, Priority, total, k);
    InTierIds(rows, t, tiers.attention, Attention, total, k);
    TiersDisjoint(t[k], total);
  }
}
