/** The specialised histogram behind the column entropy: guessed bin indexes are corrected in place. */
module HistogramBinning {
  import opened Common

  predicate Edges(edges: seq<real>) {
    |edges| >= 2 && forall i, j :: 0 <= i < j < |edges| ==> edges[i] < edges[j]
  }

  /** The value lies in bin b: half-open, the last bin closed. */
  predicate InBin(edges: seq<real>, v: real, b: int) {
    0 <= b < |edges| - 1 && edges[b] <= v && (v < edges[b + 1] || (b == |edges| - 2 && v == edges[b + 1]))
  }

  predicate Within(edges: seq<real>, v: real)
    requires Edges(edges)
  {
    edges[0] <= v <= Last(edges)
  }

  /** The first bin from i on whose upper edge is above v, or the last bin: every value between the
      outer edges lies in some bin. */
  function FindBin(edges: seq<real>, v: real, i: nat): (b: nat)
    requires Edges(edges) && i < |edges| - 1 && edges[i] <= v <= Last(edges)
    ensures InBin(edges, v, b)
    decreases |edges| - i
  {
    if v < edges[i + 1] || i == |edges| - 2 then i else FindBin(edges, v, i + 1)
  }

  /** No value lies in two bins. */
  lemma BinIsUnique(edges: seq<real>, v: real, a: int, b: int)
    requires Edges(edges) && InBin(edges, v, a) && InBin(edges, v, b)
    ensures a == b
  {
  }

  /** A guessed index, at most one off the true bin; it may be the number of bins. */
  predicate Near(edges: seq<real>, v: real, guess: int)
    requires Edges(edges) && Within(edges, v)
  {
    0 <= guess < |edges| && FindBin(edges, v, 0) - 1 <= guess <= FindBin(edges, v, 0) + 1
  }

  /** The index after the first two corrections. */
  function Lowered(edges: seq<real>, v: real, guess: int): int
    requires 0 <= guess < |edges|
  {
    var clamped := if guess == |edges| - 1 then guess - 1 else guess;
    if clamped >= 0 && v < edges[clamped] then clamped - 1 else clamped
  }

  /** The index after the last correction. */
  function Settled(edges: seq<real>, v: real, low: int): int
    requires 0 <= low < |edges| - 1
  {
    if v >= edges[low + 1] && low != |edges| - 2 then low + 1 else low
  }

  /** Clamp, decrement, increment: from near guesses, every index ends on its value's bin. */
  method CorrectIndexes(values: seq<real>, edges: seq<real>, indexes: array<int>)
    requires Edges(edges) && indexes.Length == |values|
    requires forall i :: 0 <= i < |values| ==> Within(edges, values[i]) && Near(edges, values[i], indexes[i])
    modifies indexes
    ensures forall i :: 0 <= i < |values| ==> InBin(edges, values[i], indexes[i])
  {
    ghost var guess := indexes[..];
    forall i | 0 <= i < |values|
      ensures 0 <= guess[i] < |edges| && 0 <= Lowered(edges, values[i], guess[i]) < |edges| - 1
      ensures InBin(edges, values[i], Settled(edges, values[i], Lowered(edges, values[i], guess[i])))
    {
      Corrected(edges, values[i], guess[i]);
    }
    hide Edges, Near, InBin, Within, Lowered, Settled;
    LowerIndexes(values, edges, indexes);
    RaiseIndexes(values, edges, indexes);
  }

  method RaiseIndexes(values: seq<real>, edges: seq<real>, indexes: array<int>)
    requires indexes.Length == |values| && |edges| >= 2
    requires forall i :: 0 <= i < |values| ==> 0 <= indexes[i] < |edges| - 1
    modifies indexes
    ensures forall i :: 0 <= i < |values| ==> indexes[i] == Settled(edges, values[i], old(indexes[i]))
  {
    var bins := |edges| - 1;
    forall i | 0 <= i < indexes.Length && values[i] >= edges[indexes[i] + 1] && indexes[i] != bins - 1 {
      indexes[i] := indexes[i] + 1;
    }
  }

  method LowerIndexes(values: seq<real>, edges: seq<real>, indexes: array<int>)
    requires indexes.Length == |values| && |edges| >= 2
    requires forall i :: 0 <= i < |values| ==> 0 <= indexes[i] < |edges|
    modifies indexes
    ensures forall i :: 0 <= i < |values| ==> indexes[i] == Lowered(edges, values[i], old(indexes[i]))
  {
    var bins := |edges| - 1;
    forall i | 0 <= i < indexes.Length && indexes[i] == bins {
      indexes[i] := indexes[i] - 1;
    }
    forall i | 0 <= i < indexes.Length && values[i] < edges[indexes[i]] {
      indexes[i] := indexes[i] - 1;
    }
  }

  /** The three corrections take a near guess to the true bin. */
  lemma Corrected(edges: seq<real>, v: real, guess: int)
    requires Edges(edges) && Within(edges, v) && Near(edges, v, guess)
    ensures 0 <= guess < |edges| && 0 <= Lowered(edges, v, guess) < |edges| - 1
    ensures InBin(edges, v, Settled(edges, v, Lowered(edges, v, guess)))
  {
    var clamped := if guess == |edges| - 1 then guess - 1 else guess;
    hide FindBin;
    Decremented(edges, v, clamped);
    Incremented(edges, v, Lowered(edges, v, guess));
  }

  lemma Decremented(edges: seq<real>, v: real, index: int)
    requires Edges(edges) && Within(edges, v) && 0 <= index < |edges| - 1
    requires FindBin(edges, v, 0) - 1 <= index <= FindBin(edges, v, 0) + 1
    ensures
      var after := if v < edges[index] then index - 1 else index;
      FindBin(edges, v, 0) - 1 <= after <= FindBin(edges, v, 0) && 0 <= after < |edges| - 1
  {
    var b := FindBin(edges, v, 0);
    if index < b { assert edges[index] < edges[b]; }
  }

  lemma Incremented(edges: seq<real>, v: real, index: int)
    requires Edges(edges) && Within(edges, v) && 0 <= index < |edges| - 1
    requires FindBin(edges, v, 0) - 1 <= index <= FindBin(edges, v, 0)
    ensures
      var after := if v >= edges[index + 1] && index != |edges| - 2 then index + 1 else index;
      InBin(edges, v, after)
  {
    var b := FindBin(edges, v, 0);
    if index == b && b < |edges| - 2 { assert v < edges[b + 1]; }
  }

  // ----- The histogram -----

  /** How many of the values lie in bin b, counted directly. */
  function CountIn(edges: seq<real>, values: seq<real>, b: int): nat {
    if values == [] then 0
    else CountIn(edges, values[..|values| - 1], b) + if InBin(edges, Last(values), b) then 1 else 0
  }

  function Sum(counts: seq<nat>): nat {
    if counts == [] then 0 else Sum(counts[..|counts| - 1]) + Last(counts)
  }

  lemma {:induction false} SumAfterIncrement(counts: seq<nat>, k: nat)
    requires k < |counts|
    ensures Sum(counts[k := counts[k] + 1]) == Sum(counts) + 1
  {
    var next := counts[k := counts[k] + 1];
    if k == |counts| - 1 {
      assert next[..|next| - 1] == counts[..|counts| - 1];
    } else {
      SumAfterIncrement(counts[..|counts| - 1], k);
      assert next[..|next| - 1] == counts[..|counts| - 1][k := counts[k] + 1];
    }
  }

  lemma {:induction false} SumOfZeros(counts: seq<nat>)
    requires forall k :: 0 <= k < |counts| ==> counts[k] == 0
    ensures Sum(counts) == 0
  {
    if counts != [] { SumOfZeros(counts[..|counts| - 1]); }
  }

  lemma CountStep(edges: seq<real>, values: seq<real>, i: nat, own: nat)
    requires Edges(edges) && i < |values| && InBin(edges, values[i], own)
    ensures forall b :: CountIn(edges, values[..i + 1], b) == CountIn(edges, values[..i], b) + if b == own then 1 else 0
  {
    assert values[..i + 1][..i] == values[..i];
    forall b ensures InBin(edges, values[i], b) <==> b == own {
      if InBin(edges, values[i], b) { BinIsUnique(edges, values[i], b, own); }
    }
  }

  lemma NothingCounted(edges: seq<real>, values: seq<real>)
    ensures forall b :: CountIn(edges, values[..0], b) == 0
  {
  }

  lemma InBinInRange(edges: seq<real>, v: real, b: int)
    requires InBin(edges, v, b)
    ensures 0 <= b < |edges| - 1
  {
  }

  /** `bincount` over correct indexes. */
  method CountBins(values: seq<real>, edges: seq<real>, indexes: seq<int>) returns (counts: seq<nat>)
    requires Edges(edges) && |indexes| == |values|
    requires forall i :: 0 <= i < |values| ==> InBin(edges, values[i], indexes[i])
    ensures |counts| == |edges| - 1
    ensures forall b :: 0 <= b < |counts| ==> counts[b] == CountIn(edges, values, b)
    ensures Sum(counts) == |values|
  {
    counts := seq(|edges| - 1, _ => 0);
    SumOfZeros(counts);
    NothingCounted(edges, values);
    hide Sum, CountIn, InBin, Edges;
    for i := 0 to |values|
      invariant |counts| == |edges| - 1 && Sum(counts) == i
      invariant forall b :: 0 <= b < |counts| ==> counts[b] == CountIn(edges, values[..i], b)
    {
      InBinInRange(edges, values[i], indexes[i]);
      CountStep(edges, values, i, indexes[i]);
      SumAfterIncrement(counts, indexes[i]);
      counts := counts[indexes[i] := counts[indexes[i]] + 1];
    }
    assert values[..|values|] == values;
  }

  /** Correct the guesses and count: every bin gets the direct count, and nothing is lost. */
  method Histogram(values: seq<real>, edges: seq<real>, indexes: array<int>) returns (counts: seq<nat>)
    requires Edges(edges) && indexes.Length == |values|
    requires forall i :: 0 <= i < |values| ==> Within(edges, values[i]) && Near(edges, values[i], indexes[i])
    modifies indexes
    ensures |counts| == |edges| - 1
    ensures forall b :: 0 <= b < |counts| ==> counts[b] == CountIn(edges, values, b)
    ensures Sum(counts) == |values|
  {
    CorrectIndexes(values, edges, indexes);
    counts := CountBins(values, edges, indexes[..]);
  }

  // ----- Equal-width edges and the guess -----

  /** The outer edges of a column's histogram. */
  datatype Range = Range(first: real, last: real)

  function Step(range: Range, bins: nat): real
    requires bins >= 1
  {
    (range.last - range.first) / bins as real
  }

  /** `linspace(first, last, bins + 1)`. */
  function Linspace(range: Range, bins: nat): (edges: seq<real>)
    requires bins >= 1
    ensures |edges| == bins + 1
    ensures forall k :: 0 <= k <= bins ==> edges[k] == range.first + Times(k as real, Step(range, bins))
  {
    seq(bins + 1, k requires 0 <= k <= bins => range.first + Times(k as real, Step(range, bins)))
  }

  lemma LinspaceIsStrict(range: Range, bins: nat)
    requires bins >= 1 && range.first < range.last
    ensures Edges(Linspace(range, bins))
    ensures Linspace(range, bins)[0] == range.first && Last(Linspace(range, bins)) == range.last
  {
    var step, edges := Step(range, bins), Linspace(range, bins);
    assert step > 0.0 && Times(bins as real, step) == range.last - range.first && Times(0.0, step) == 0.0;
    hide Times, Step;
    forall i, j | 0 <= i < j <= bins
      ensures edges[i] < edges[j]
    {
      TimesIsMonotone(i as real, j as real, step);
    }
  }

  /** How far into the range a value lies, in bins. */
  function Fraction(range: Range, bins: nat, v: real): real
    requires range.first < range.last
  {
    ((v - range.first) / (range.last - range.first)) * bins as real
  }

  function Guess(range: Range, bins: nat, v: real): int
    requires range.first < range.last
  {
    Fraction(range, bins, v).Floor
  }

  lemma BinBrackets(edges: seq<real>, v: real)
    requires Edges(edges) && Within(edges, v)
    ensures var b := FindBin(edges, v, 0); b + 1 < |edges| && edges[b] <= v <= edges[b + 1]
  {
  }

  /** In exact arithmetic the guess is the value's bin, or the number of bins at the upper end: well within
      the one-off error the correction allows. */
  lemma GuessIsNear(range: Range, bins: nat, v: real)
    requires bins >= 1 && range.first < range.last && range.first <= v <= range.last
    ensures Edges(Linspace(range, bins)) && Within(Linspace(range, bins), v)
    ensures Near(Linspace(range, bins), v, Guess(range, bins, v))
  {
    hide Times, Edges, Near, Fraction, Step;
    LinspaceIsStrict(range, bins);
    FractionOfSteps(range, bins, v);
    FloorIsNear(Linspace(range, bins), bins, range.first, Step(range, bins), Fraction(range, bins, v), v);
  }

  lemma FloorIsNear(edges: seq<real>, bins: nat, first: real, step: real, fraction: real, v: real)
    requires Edges(edges) && Within(edges, v) && |edges| == bins + 1
    requires forall k :: 0 <= k <= bins ==> edges[k] == first + Times(k as real, step)
    requires step > 0.0 && v == first + Times(fraction, step) && 0.0 <= fraction <= bins as real
    ensures Near(edges, v, fraction.Floor)
  {
    BinBrackets(edges, v);
    hide Times, FindBin, Edges;
    var b := FindBin(edges, v, 0);
    TimesCancels(b as real, fraction, step);
    TimesCancels(fraction, (b + 1) as real, step);
  }

  lemma FractionOfSteps(range: Range, bins: nat, v: real)
    requires bins >= 1 && range.first < range.last && range.first <= v <= range.last
    ensures v == range.first + Times(Fraction(range, bins, v), Step(range, bins))
    ensures 0.0 <= Fraction(range, bins, v) <= bins as real && Step(range, bins) > 0.0
  {
    var width, n := range.last - range.first, bins as real;
    var ratio, step := (v - range.first) / width, width / n;
    assert ratio * width == v - range.first && step * n == width;
    assert 0.0 <= ratio <= 1.0;
    assert (ratio * n) * step == ratio * (step * n);
    assert 0.0 <= ratio * n;
    assert (1.0 - ratio) * n >= 0.0;
  }

  /** The edges begin and end with the range and are evenly spaced. */
  lemma LinspaceIsEven(range: Range, bins: nat)
    requires bins >= 1 && range.first < range.last
    ensures Linspace(range, bins)[0] == range.first && Last(Linspace(range, bins)) == range.last
    ensures forall k :: 0 <= k < bins ==>
      Times(Linspace(range, bins)[k + 1] - Linspace(range, bins)[k], bins as real) == range.last - range.first
  {
    LinspaceIsStrict(range, bins);
    var edges, step := Linspace(range, bins), Step(range, bins);
    assert Times(step, bins as real) == range.last - range.first;
    hide Linspace, Step;
    forall k | 0 <= k < bins
      ensures edges[k + 1] - edges[k] == step
    {
      OneStepMore(k, step);
    }
  }

  lemma OneStepMore(k: nat, step: real)
    ensures Times((k + 1) as real, step) - Times(k as real, step) == step
  {
    assert (k + 1) as real == k as real + 1.0;
  }

  /** The direct count of a bin is that of the values from its lower edge up to its upper one, which only the last
      bin includes. */
  lemma {:induction false} CountIsOfValuesBetween(edges: seq<real>, values: seq<real>, b: nat) returns (at: seq<nat>)
    requires b + 1 < |edges|
    ensures CountIn(edges, values, b) == |at|
    ensures Selects(values, (v: real) =>
      edges[b] <= v && (v < edges[b + 1] || (v == edges[b + 1] && b + 2 == |edges|)), at)
  {
    var inside := (v: real) => edges[b] <= v && (v < edges[b + 1] || (v == edges[b + 1] && b + 2 == |edges|));
    if values == [] {
      at := [];
    } else {
      at := CountIsOfValuesBetween(edges, values[..|values| - 1], b);
      SelectsOneMore(values, inside, at);
      hide Selects;
      at := at + if inside(Last(values)) then [|values| - 1] else [];
    }
  }

  // ----- The whole column -----

  function Smallest(values: seq<real>): (m: real)
    requires values != []
    ensures m in values && forall v :: v in values ==> m <= v
  {
    if |values| == 1 then values[0]
    else
      assert values == values[..|values| - 1] + [Last(values)];
      var m := Smallest(values[..|values| - 1]);
      if Last(values) < m then Last(values) else m
  }

  function Largest(values: seq<real>): (m: real)
    requires values != []
    ensures m in values && forall v :: v in values ==> v <= m
  {
    if |values| == 1 then values[0]
    else
      assert values == values[..|values| - 1] + [Last(values)];
      var m := Largest(values[..|values| - 1]);
      if Last(values) > m then Last(values) else m
  }

  /** The extremes of the column, half a unit further out when they coincide. */
  function OuterEdges(values: seq<real>): (range: Range)
    requires values != []
    ensures range.first < range.last
    ensures forall v :: v in values ==> range.first <= v <= range.last
  {
    var first, last := Smallest(values), Largest(values);
    if first == last then Range(first - 0.5, last + 0.5) else Range(first, last)
  }

  /** The range is from the least value to the greatest, or, in a constant column, half a unit to either side. */
  lemma RangeOfColumn(values: seq<real>)
    requires values != []
    ensures
      var range := OuterEdges(values);
      if forall v :: v in values ==> v == values[0] then range == Range(values[0] - 0.5, values[0] + 0.5)
      else range.first in values && range.last in values && forall v :: v in values ==> range.first <= v <= range.last
  {
    if forall v :: v in values ==> v == values[0] {
      assert Smallest(values) == values[0] && Largest(values) == values[0];
    } else {
      var v :| v in values && v != values[0];
      assert values[0] in values;
    }
  }

  /** The histogram of any column, with any number of bins: from the code's own guesses every bin gets
      its direct count, and the counts add up to the size of the column. */
  method ColumnHistogram(values: seq<real>, bins: nat) returns (counts: seq<nat>)
    requires values != [] && bins >= 1
    ensures |counts| == bins
    ensures
      var range := OuterEdges(values);
      forall b :: 0 <= b < bins ==> counts[b] == CountIn(Linspace(range, bins), values, b)
    ensures Sum(counts) == |values|
  {
    var range := OuterEdges(values);
    var edges := Linspace(range, bins);
    var indexes := new int[|values|](i requires 0 <= i < |values| => Guess(range, bins, values[i]));
    hide Guess, Linspace, Near, Within, Edges, CountIn, Sum, OuterEdges;
    LinspaceIsStrict(range, bins);
    forall i | 0 <= i < |values|
      ensures Within(edges, values[i]) && Near(edges, values[i], indexes[i])
    {
      assert values[i] in values;
      GuessIsNear(range, bins, values[i]);
    }
    counts := Histogram(values, edges, indexes);
  }
}
