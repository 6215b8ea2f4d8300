/** The relationship review: every pair of columns is compared between a baseline and a recent window,
    and the changes are summed into a graph summary. */
module RelationshipGraph {
  import opened Common
  import opened Relationships
  import opened Rounding

  const CHANGE_THRESHOLD := 0.5

  /** Two positions in the list of reviewed columns. */
  datatype Couple = Couple(i: nat, j: nat)

  datatype Edge = Edge(first: nat, second: nat, weight: real, subsystem: string)

  datatype Review = Review(attempted: nat, skipped: nat, edges: seq<Edge>)

  datatype Summary = Summary(
    edgeCount: nat, changedCount: nat, dominant: seq<string>, deformation: real, density: real, top: seq<Edge>)

  // ----- The pairs compared -----

  /** `combinations(range(n), 2)`, with first index i. */
  function Row(i: nat, n: nat): (ps: seq<Couple>)
    ensures |ps| == if i < n then n - i - 1 else 0
    ensures forall k :: 0 <= k < |ps| ==> ps[k] == Couple(i, i + 1 + k)
  {
    if i < n then seq(n - i - 1, k requires 0 <= k < n - i - 1 => Couple(i, i + 1 + k)) else []
  }

  /** All pairs i < j < n whose first index is below m, in the order they are met. */
  function Combinations(m: nat, n: nat): seq<Couple> {
    if m == 0 then [] else Combinations(m - 1, n) + Row(m - 1, n)
  }

  lemma {:induction false} CombinationsCount(m: nat, n: nat)
    requires m <= n
    ensures 2 * |Combinations(m, n)| == m * (2 * n - m - 1)
  {
    if m > 0 { CombinationsCount(m - 1, n); }
  }

  lemma RowMembers(i: nat, n: nat, p: Couple)
    requires i < n
    ensures p in Row(i, n) <==> p.i == i && i < p.j < n
  {
    if p.i == i && i < p.j < n { assert Row(i, n)[p.j - i - 1] == p; }
  }

  lemma {:induction false} CombinationsMembers(m: nat, n: nat, p: Couple)
    requires m <= n
    ensures p in Combinations(m, n) <==> p.i < m && p.i < p.j < n
  {
    if m > 0 {
      CombinationsMembers(m - 1, n, p);
      RowMembers(m - 1, n, p);
      hide Row;
    }
  }

  predicate AllDistinct(ps: seq<Couple>) {
    forall a, b :: 0 <= a < b < |ps| ==> ps[a] != ps[b]
  }

  lemma DistinctConcat(xs: seq<Couple>, ys: seq<Couple>)
    requires AllDistinct(xs) && AllDistinct(ys) && forall p :: p in xs ==> p !in ys
    ensures AllDistinct(xs + ys)
  {
    var all := xs + ys;
    forall a, b | 0 <= a < b < |all|
      ensures all[a] != all[b]
    {
      if a < |xs| <= b { assert xs[a] in xs && ys[b - |xs|] in ys; }
    }
  }

  lemma {:induction false} CombinationsAreDistinct(m: nat, n: nat)
    requires m <= n
    ensures AllDistinct(Combinations(m, n))
  {
    if m > 0 {
      CombinationsAreDistinct(m - 1, n);
      var before, row := Combinations(m - 1, n), Row(m - 1, n);
      assert AllDistinct(row);
      forall p | p in before
        ensures p !in row
      {
        CombinationsMembers(m - 1, n, p);
        RowMembers(m - 1, n, p);
      }
      DistinctConcat(before, row);
    }
  }

  /** Every unordered pair of distinct columns is met exactly once. */
  lemma CombinationsAreThePairs(m: nat, n: nat)
    requires m <= n
    ensures forall p :: p in Combinations(m, n) <==> p.i < m && p.i < p.j < n
    ensures AllDistinct(Combinations(m, n))
  {
    CombinationsAreDistinct(m, n);
    forall p: Couple
      ensures p in Combinations(m, n) <==> p.i < m && p.i < p.j < n
    {
      CombinationsMembers(m, n, p);
    }
  }

  // ----- The review loop -----

  /** The two windows, the reviewed columns' positions, and the subsystem naming. */
  datatype Windows = Windows(
    baseline: seq<seq<Cell>>, recent: seq<seq<Cell>>, columns: seq<nat>, names: nat -> nat -> string,
    sqrt: real -> real)

  /** The edge of a pair, if both windows give a coefficient. */
  function EdgeOf(w: Windows, p: Couple): Option<Edge>
    requires p.i < |w.columns| && p.j < |w.columns|
  {
    var before := Coefficient(Pairs(w.baseline, w.columns[p.i], w.columns[p.j]), w.sqrt);
    var after := Coefficient(Pairs(w.recent, w.columns[p.i], w.columns[p.j]), w.sqrt);
    if before.None? || after.None? then None
    else Some(Edge(p.i, p.j, Round4(Abs(after.value - before.value)), w.names(p.i)(p.j)))
  }

  predicate InRange(w: Windows, ps: seq<Couple>) {
    forall k :: 0 <= k < |ps| ==> ps[k].i < |w.columns| && ps[k].j < |w.columns|
  }

  function EdgesOf(w: Windows, ps: seq<Couple>): seq<Edge>
    requires InRange(w, ps)
  {
    if ps == [] then []
    else
      var e := EdgeOf(w, Last(ps));
      EdgesOf(w, ps[..|ps| - 1]) + if e.Some? then [e.value] else []
  }

  lemma CombinationsInRange(w: Windows)
    ensures InRange(w, Combinations(|w.columns|, |w.columns|))
  {
    var n := |w.columns|;
    CombinationsAreThePairs(n, n);
    forall k | 0 <= k < |Combinations(n, n)|
      ensures Combinations(n, n)[k].i < n && Combinations(n, n)[k].j < n
    {
      assert Combinations(n, n)[k] in Combinations(n, n);
    }
  }

  lemma EdgesStep(w: Windows, ps: seq<Couple>, k: nat)
    requires InRange(w, ps) && k < |ps|
    ensures
      var e := EdgeOf(w, ps[k]);
      InRange(w, ps[..k]) && InRange(w, ps[..k + 1]) &&
      EdgesOf(w, ps[..k + 1]) == EdgesOf(w, ps[..k]) + if e.Some? then [e.value] else []
  {
    assert ps[..k + 1][..k] == ps[..k];
  }

  /** One pair in both windows: skipped, or an edge whose weight is the change of the coefficient. */
  method CompareWindows(w: Windows, p: Couple) returns (edge: Option<Edge>)
    requires IsSqrt(w.sqrt) && p.i < |w.columns| && p.j < |w.columns|
    ensures edge == EdgeOf(w, p)
  {
    hide Coefficient, IsSqrt, Pairs;
    var before := CorrelationForPair(w.baseline, w.columns[p.i], w.columns[p.j], w.sqrt);
    var after := CorrelationForPair(w.recent, w.columns[p.i], w.columns[p.j], w.sqrt);
    if before.None? || after.None? { return None; }
    return Some(Edge(p.i, p.j, Round4(Abs(after.value - before.value)), w.names(p.i)(p.j)));
  }

  lemma ChangeIsLight(w: Windows, p: Couple)
    requires p.i < |w.columns| && p.j < |w.columns| && IsSqrt(w.sqrt)
    ensures EdgeOf(w, p).Some? ==> 0.0 <= EdgeOf(w, p).value.weight <= 2.0
  {
    var before := Coefficient(Pairs(w.baseline, w.columns[p.i], w.columns[p.j]), w.sqrt);
    var after := Coefficient(Pairs(w.recent, w.columns[p.i], w.columns[p.j]), w.sqrt);
    CoefficientIsBounded(Pairs(w.baseline, w.columns[p.i], w.columns[p.j]), w.sqrt);
    CoefficientIsBounded(Pairs(w.recent, w.columns[p.i], w.columns[p.j]), w.sqrt);
    hide Coefficient, Pairs, IsSqrt, Round4;
    if before.Some? && after.Some? {
      Round4KeepsTwo(Abs(after.value - before.value));
    }
  }

  lemma Round4KeepsTwo(x: real)
    requires 0.0 <= x <= 2.0
    ensures 0.0 <= Round4(x) <= 2.0
  {
    Round4IsMonotone(0.0, x);
    Round4IsMonotone(x, 2.0);
  }

  /** A pair has an edge if and only if both windows give it a coefficient; it then weighs the change of the
      coefficient to four decimals, and joins the pair under its subsystem. */
  lemma EdgeWeighsTheChange(w: Windows, p: Couple)
    requires p.i < |w.columns| && p.j < |w.columns|
    ensures
      var before := Coefficient(Pairs(w.baseline, w.columns[p.i], w.columns[p.j]), w.sqrt);
      var after := Coefficient(Pairs(w.recent, w.columns[p.i], w.columns[p.j]), w.sqrt);
      && (EdgeOf(w, p).Some? <==> before.Some? && after.Some?)
      && (EdgeOf(w, p).Some? ==>
            var e := EdgeOf(w, p).value;
            && e.first == p.i && e.second == p.j && e.subsystem == w.names(p.i)(p.j)
            && (after.value >= before.value ==> -0.00005 <= e.weight - (after.value - before.value) <= 0.00005)
            && (after.value <= before.value ==> -0.00005 <= e.weight - (before.value - after.value) <= 0.00005))
  {
    hide Coefficient, Pairs, Round4;
    if EdgeOf(w, p).Some? {
      Round4IsClose(
        Abs(Coefficient(Pairs(w.recent, w.columns[p.i], w.columns[p.j]), w.sqrt).value
            - Coefficient(Pairs(w.baseline, w.columns[p.i], w.columns[p.j]), w.sqrt).value));
    }
  }

  /** A coefficient changes by at most two. */
  lemma {:induction false} EdgesAreLight(w: Windows, ps: seq<Couple>)
    requires IsSqrt(w.sqrt) && InRange(w, ps)
    ensures forall e :: e in EdgesOf(w, ps) ==> 0.0 <= e.weight <= 2.0
  {
    if ps != [] {
      EdgesAreLight(w, ps[..|ps| - 1]);
      var p := Last(ps);
      ChangeIsLight(w, p);
      hide EdgeOf, IsSqrt;
    }
  }

  /** The pair loop of `evaluate_relationships`: n(n-1)/2 pairs are attempted, each is skipped or
      becomes an edge, and no edge weighs more than two. */
  method ReviewPairs(w: Windows) returns (r: Review)
    requires IsSqrt(w.sqrt)
    ensures 2 * r.attempted == |w.columns| * (|w.columns| - 1)
    ensures r.skipped + |r.edges| == r.attempted
    ensures forall e :: e in r.edges ==> 0.0 <= e.weight <= 2.0
    ensures InRange(w, Combinations(|w.columns|, |w.columns|))
            && r.edges == EdgesOf(w, Combinations(|w.columns|, |w.columns|))
  {
    var pairs := Combinations(|w.columns|, |w.columns|);
    CombinationsInRange(w);
    hide Combinations;
    r := ReviewAll(w, pairs);
    EdgesAreLight(w, pairs);
    CombinationsCount(|w.columns|, |w.columns|);
  }

  method ReviewAll(w: Windows, pairs: seq<Couple>) returns (r: Review)
    requires IsSqrt(w.sqrt) && InRange(w, pairs)
    ensures r.attempted == |pairs| && r.skipped + |r.edges| == r.attempted && r.edges == EdgesOf(w, pairs)
  {
    var attempted, skipped, edges: seq<Edge> := 0, 0, [];
    hide EdgeOf, EdgesOf, IsSqrt;
    EmptyEdges(w);
    for k := 0 to |pairs|
      invariant attempted == k && skipped + |edges| == attempted
      invariant InRange(w, pairs[..k]) && edges == EdgesOf(w, pairs[..k])
    {
      EdgesStep(w, pairs, k);
      attempted := attempted + 1;
      var edge := CompareWindows(w, pairs[k]);
      if edge.None? {
        skipped := skipped + 1;
      } else {
        edges := edges + [edge.value];
      }
    }
    assert pairs[..|pairs|] == pairs;
    r := Review(attempted, skipped, edges);
  }

  lemma EmptyEdges(w: Windows)
    ensures EdgesOf(w, []) == []
  {
  }

  lemma {:induction false} EdgesComeFrom(w: Windows, ps: seq<Couple>, e: Edge)
    requires InRange(w, ps)
    ensures e in EdgesOf(w, ps) <==>
            exists p :: p in ps && p.i < |w.columns| && p.j < |w.columns| && EdgeOf(w, p) == Some(e)
  {
    if ps != [] {
      var init, last := ps[..|ps| - 1], Last(ps);
      assert last.i < |w.columns| && last.j < |w.columns|;
      assert e in EdgesOf(w, ps) <==> e in EdgesOf(w, init) || EdgeOf(w, last) == Some(e);
      EdgesComeFrom(w, init, e);
      hide *;
      assert forall p :: p in ps <==> p in init || p == last by { assert ps == init + [last]; }
    }
  }

  /** The edges of a review are exactly those of the comparable pairs of distinct columns. */
  lemma EdgesAreTheComparablePairs(w: Windows, e: Edge)
    ensures
      var n := |w.columns|;
      InRange(w, Combinations(n, n)) &&
      (e in EdgesOf(w, Combinations(n, n)) <==>
       e.first < e.second < n && EdgeOf(w, Couple(e.first, e.second)) == Some(e))
  {
    var n := |w.columns|;
    CombinationsInRange(w);
    CombinationsAreThePairs(n, n);
    EdgesComeFrom(w, Combinations(n, n), e);
    hide Combinations, Coefficient;
    if e.first < e.second < n { assert Couple(e.first, e.second) in Combinations(n, n); }
  }

  // ----- The graph summary -----

  function Changed(edges: seq<Edge>): (c: seq<Edge>)
    ensures |c| <= |edges|
    ensures forall e :: e in c <==> e in edges && e.weight >= CHANGE_THRESHOLD
  {
    if edges == [] then []
    else Changed(edges[..|edges| - 1]) + if Last(edges).weight >= CHANGE_THRESHOLD then [Last(edges)] else []
  }

  /** The changed edges are those that weigh at least 0.5, in order. */
  lemma {:induction false} ChangedAreHeavy(edges: seq<Edge>) returns (at: seq<nat>)
    ensures Selects(edges, (e: Edge) => e.weight >= 0.5, at) && TakenAt(Changed(edges), edges, at)
  {
    if edges == [] {
      at := [];
    } else {
      var init, last := edges[..|edges| - 1], Last(edges);
      at := ChangedAreHeavy(init);
      SelectsOneMore(edges, (e: Edge) => e.weight >= 0.5, at);
      TakenOneMore(Changed(init), edges, at, last.weight >= 0.5);
      assert Changed(edges) == Changed(init) + if last.weight >= 0.5 then [last] else [];
      hide *;
      at := at + if last.weight >= 0.5 then [|edges| - 1] else [];
    }
  }

  function TotalWeight(edges: seq<Edge>): real {
    if edges == [] then 0.0 else TotalWeight(edges[..|edges| - 1]) + Last(edges).weight
  }

  /** The weight a subsystem carries. */
  function Share(edges: seq<Edge>, subsystem: string): real {
    if edges == [] then 0.0
    else Share(edges[..|edges| - 1], subsystem) + if Last(edges).subsystem == subsystem then Last(edges).weight else 0.0
  }

  /** The subsystems, in the order they are met. */
  function Subsystems(edges: seq<Edge>): seq<string> {
    if edges == [] then []
    else
      var before := Subsystems(edges[..|edges| - 1]);
      if Last(edges).subsystem in before then before else before + [Last(edges).subsystem]
  }

  lemma {:induction false} SubsystemsAre(edges: seq<Edge>)
    ensures forall k :: k in Subsystems(edges) <==> k in set e | e in edges :: e.subsystem
  {
    if edges != [] {
      var init, last := edges[..|edges| - 1], Last(edges);
      SubsystemsAre(init);
      assert forall e :: e in edges <==> e in init || e == last by { assert edges == init + [last]; }
    }
  }

  /** The subsystem totals: every subsystem of an edge, in the order met, with the weight it carries. */
  method SubsystemTotals(edges: seq<Edge>) returns (names: seq<string>, totals: map<string, real>)
    ensures names == Subsystems(edges) && totals.Keys == set e | e in edges :: e.subsystem
    ensures forall k :: k in names <==> k in totals
    ensures forall k :: k in totals ==> totals[k] == Share(edges, k)
  {
    names, totals := [], map[];
    EmptyShares();
    SubsystemsAre(edges);
    hide Share, Subsystems;
    for i := 0 to |edges|
      invariant names == Subsystems(edges[..i])
      invariant forall k :: k in names <==> k in totals
      invariant forall k :: Share(edges[..i], k) == if k in totals then totals[k] else 0.0
    {
      ShareStep(edges, i);
      var edge := edges[i];
      if edge.subsystem !in totals { names := names + [edge.subsystem]; }
      totals := totals[edge.subsystem :=
                       (if edge.subsystem in totals then totals[edge.subsystem] else 0.0) + edge.weight];
    }
    assert edges[..|edges|] == edges;
  }

  function Density(edges: seq<Edge>): real
    requires edges != []
  {
    |Changed(edges)| as real / |edges| as real
  }

  function Deformation(edges: seq<Edge>): real
    requires edges != []
  {
    TotalWeight(Changed(edges)) / |edges| as real
  }

  // ----- The heaviest first -----

  /** Position a is listed before position b: it weighs more, or as much and comes first. */
  predicate Ahead(weight: nat -> real, a: nat, b: nat) {
    weight(a) > weight(b) || (weight(a) == weight(b) && a < b)
  }

  /** The order with a later position put in, behind all that weigh as much. */
  function Insert(order: seq<nat>, weight: nat -> real, k: nat): seq<nat> {
    if order == [] then [k]
    else if weight(order[0]) >= weight(k) then [order[0]] + Insert(order[1..], weight, k)
    else [k] + order
  }

  /** The positions below n, sorted by falling weight; equal weights stay in place. */
  function Ranking(weight: nat -> real, n: nat): seq<nat> {
    if n == 0 then [] else Insert(Ranking(weight, n - 1), weight, n - 1)
  }

  ghost predicate Ranked(weight: nat -> real, order: seq<nat>) {
    forall i, j :: 0 <= i < j < |order| ==> Ahead(weight, order[i], order[j])
  }

  lemma {:induction false} InsertRanks(order: seq<nat>, weight: nat -> real, k: nat)
    requires Ranked(weight, order) && forall a :: a in order ==> a < k
    ensures Ranked(weight, Insert(order, weight, k)) && |Insert(order, weight, k)| == |order| + 1
    ensures forall a :: a in Insert(order, weight, k) <==> a in order || a == k
  {
    if order != [] && weight(order[0]) >= weight(k) {
      var rest := Insert(order[1..], weight, k);
      assert forall a :: a in order <==> a == order[0] || a in order[1..] by {
        assert order == [order[0]] + order[1..];
      }
      InsertRanks(order[1..], weight, k);
      assert order[0] in order;
      forall j | 0 <= j < |rest|
        ensures Ahead(weight, order[0], rest[j])
      {
        assert rest[j] in rest;
        if rest[j] != k {
          var i :| 0 <= i < |order[1..]| && order[1..][i] == rest[j];
          assert Ahead(weight, order[0], order[i + 1]);
        }
      }
    } else if order != [] {
      assert forall j :: 1 <= j < |order| ==> Ahead(weight, order[0], order[j]);
      assert forall j :: 0 <= j < |order| ==> Ahead(weight, k, order[j]);
    }
  }

  /** Every position is ranked once, ahead of those it outweighs and, at equal weight, of those after it. */
  lemma {:induction false} RankingIsRanked(weight: nat -> real, n: nat)
    ensures Ranked(weight, Ranking(weight, n)) && |Ranking(weight, n)| == n
    ensures forall a: nat :: a in Ranking(weight, n) <==> a < n
  {
    hide Insert, Ranked;
    if n > 0 {
      RankingIsRanked(weight, n - 1);
      InsertRanks(Ranking(weight, n - 1), weight, n - 1);
    } else {
      assert Ranked(weight, []) by { RankedNothing(weight); }
    }
  }

  lemma RankedNothing(weight: nat -> real)
    ensures Ranked(weight, [])
  {
  }

  function WeightAt<T>(xs: seq<T>, weight: T -> real): nat -> real {
    (i: nat) => if i < |xs| then weight(xs[i]) else 0.0
  }

  /** The n heaviest of a list, or all of it, heaviest first: a stable sort and a slice. */
  function Heaviest<T>(xs: seq<T>, weight: T -> real, n: nat): (top: seq<T>)
    ensures |top| <= n && |top| <= |xs|
  {
    var at := WeightAt(xs, weight);
    RankingIsRanked(at, |xs|);
    var order := Ranking(at, |xs|);
    seq(if n < |xs| then n else |xs|, i requires 0 <= i < |xs| => assert order[i] in order; xs[order[i]])
  }

  /** `order` lists the positions of the n heaviest, in falling weight and at equal weight in order, and no
      position left out is ahead of one listed. */
  ghost predicate PicksHeaviest<T(!new)>(xs: seq<T>, weight: T -> real, n: nat, top: seq<T>, order: seq<nat>) {
    && |top| == |order| == (if n < |xs| then n else |xs|)
    && (forall i :: 0 <= i < |order| ==> order[i] < |xs| && top[i] == xs[order[i]])
    && Ranked(WeightAt(xs, weight), order)
    && (forall i, k: nat :: 0 <= i < |order| && k < |xs| && k !in order ==> Ahead(WeightAt(xs, weight), order[i], k))
  }

  lemma HeaviestAreHeaviest<T(!new)>(xs: seq<T>, weight: T -> real, n: nat) returns (order: seq<nat>)
    ensures PicksHeaviest(xs, weight, n, Heaviest(xs, weight, n), order)
  {
    var at := WeightAt(xs, weight);
    RankingIsRanked(at, |xs|);
    var all := Ranking(at, |xs|);
    order := all[..if n < |xs| then n else |xs|];
    hide Ranking, Ahead, WeightAt;
    forall i | 0 <= i < |all|
      ensures all[i] < |xs|
    {
      assert all[i] in all;
    }
    forall i, k: nat | 0 <= i < |order| && k < |xs| && k !in order
      ensures Ahead(at, order[i], k)
    {
      assert k in all;
      var j :| 0 <= j < |all| && all[j] == k;
      assert forall l :: 0 <= l < |order| ==> all[l] == order[l] && order[l] in order;
    }
  }

  /** `build_relationship_graph_summary`. */
  method BuildSummary(edges: seq<Edge>) returns (s: Summary)
    ensures s.edgeCount == |edges| && s.changedCount == (if edges == [] then 0 else |Changed(edges)|)
    ensures s.dominant == Heaviest(Subsystems(Changed(edges)), (k: string) => Share(Changed(edges), k), 3)
    ensures s.top == Heaviest(edges, (e: Edge) => e.weight, 5)
    ensures edges != [] ==>
      && s.density == Round4(Density(edges))
      && s.deformation == Round4(if Deformation(edges) < 1.0 then Deformation(edges) else 1.0)
    ensures edges == [] ==> s.density == s.deformation == 0.0
  {
    if edges == [] { return Summary(0, 0, [], 0.0, 0.0, []); }
    hide Share, TotalWeight, Changed, Round4, Heaviest, Subsystems;
    var changed := Changed(edges);
    var names, totals := SubsystemTotals(changed);
    var dominant := Heaviest(names, (k: string) => if k in totals then totals[k] else 0.0, 3);
    SameWeights(names, (k: string) => if k in totals then totals[k] else 0.0, (k: string) => Share(changed, k), 3);
    var deformation := TotalWeight(changed) / |edges| as real;
    s := Summary(|edges|, |changed|, dominant, Round4(if deformation < 1.0 then deformation else 1.0),
                 Round4(|changed| as real / |edges| as real), Heaviest(edges, (e: Edge) => e.weight, 5));
  }

  lemma {:induction false} SameRanking(a: nat -> real, b: nat -> real, n: nat)
    requires forall i: nat :: i < n ==> a(i) == b(i)
    ensures Ranking(a, n) == Ranking(b, n)
  {
    if n > 0 {
      SameRanking(a, b, n - 1);
      RankingIsRanked(a, n - 1);
      SameInsertion(Ranking(a, n - 1), a, b, n - 1);
    }
  }

  lemma {:induction false} SameInsertion(order: seq<nat>, a: nat -> real, b: nat -> real, k: nat)
    requires a(k) == b(k) && forall i :: i in order ==> a(i) == b(i)
    ensures Insert(order, a, k) == Insert(order, b, k)
  {
    if order != [] { SameInsertion(order[1..], a, b, k); }
  }

  lemma SameWeights<T>(xs: seq<T>, a: T -> real, b: T -> real, n: nat)
    requires forall x :: x in xs ==> a(x) == b(x)
    ensures Heaviest(xs, a, n) == Heaviest(xs, b, n)
  {
    SameRanking(WeightAt(xs, a), WeightAt(xs, b), |xs|);
  }

  lemma EmptyShares()
    ensures Subsystems([]) == [] && forall k :: Share([], k) == 0.0
  {
  }

  lemma ShareStep(edges: seq<Edge>, i: nat)
    requires i < |edges|
    ensures forall k :: Share(edges[..i + 1], k) ==
                        Share(edges[..i], k) + if edges[i].subsystem == k then edges[i].weight else 0.0
    ensures Subsystems(edges[..i + 1]) ==
            Subsystems(edges[..i]) + if edges[i].subsystem in Subsystems(edges[..i]) then [] else [edges[i].subsystem]
  {
    assert edges[..i + 1][..i] == edges[..i];
    assert edges[..i + 1] == edges[..i] + [edges[i]];
  }

  lemma {:induction false} TotalWeightIsBounded(edges: seq<Edge>, low: real, high: real)
    requires forall e :: e in edges ==> low <= e.weight <= high
    ensures low * |edges| as real <= TotalWeight(edges) <= high * |edges| as real
  {
    if edges != [] {
      var init := edges[..|edges| - 1];
      TotalWeightIsBounded(init, low, high);
      assert |edges| as real == |init| as real + 1.0;
      assert low * |edges| as real == low * |init| as real + low
             && high * |edges| as real == high * |init| as real + high;
    }
  }

  lemma QuotientScales(a: real, b: real, n: real)
    requires n > 0.0
    ensures (a * b) / n == a * (b / n)
  {
    assert (b / n) * n == b;
    assert (a * (b / n)) * n == a * b;
  }

  /** Deformation and density measure the same changes: over any reviewed edges, half the density is at
      most the deformation, and that at most twice the density. */
  lemma DeformationFollowsDensity(edges: seq<Edge>)
    requires edges != [] && forall e :: e in edges ==> 0.0 <= e.weight <= 2.0
    ensures 0.5 * Density(edges) <= Deformation(edges) <= 2.0 * Density(edges)
  {
    var changed := Changed(edges);
    TotalWeightIsBounded(changed, CHANGE_THRESHOLD, 2.0);
    QuotientLies(|changed| as real, TotalWeight(changed), |edges| as real);
    hide Changed, TotalWeight;
  }

  lemma QuotientLies(count: real, weight: real, n: real)
    requires n > 0.0 && 0.5 * count <= weight <= 2.0 * count
    ensures 0.5 * (count / n) <= weight / n <= 2.0 * (count / n)
  {
    QuotientRises(0.5 * count, weight, n);
    QuotientRises(weight, 2.0 * count, n);
    QuotientScales(0.5, count, n);
    QuotientScales(2.0, count, n);
  }
}
