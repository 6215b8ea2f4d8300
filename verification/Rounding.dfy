/** Rounding of reported values to a fixed number of decimals, ties to even, over exact reals. */
module Rounding {

  function Nearest(x: real): int {
    var below := x.Floor;
    var rest := x - below as real;
    if rest < 0.5 || (rest == 0.5 && below % 2 == 0) then below else below + 1
  }

  function Round4(x: real): real {
    Nearest(x * 10000.0) as real / 10000.0
  }

  function Round6(x: real): real {
    Nearest(x * 1000000.0) as real / 1000000.0
  }

  /** The nearest integer, the even one of two. */
  predicate Rounds(x: real, n: int) {
    -0.5 <= x - n as real <= 0.5 && ((x - n as real == 0.5 || x - n as real == -0.5) ==> n % 2 == 0)
  }

  /** A rounded value is a number of units in its last place, the nearest to the value and of two the even one. */
  lemma RoundedIsNearest(x: real) returns (fours: int, sixes: int)
    ensures Round4(x) == fours as real / 10000.0 && Rounds(x * 10000.0, fours)
    ensures Round6(x) == sixes as real / 1000000.0 && Rounds(x * 1000000.0, sixes)
  {
    fours, sixes := Nearest(x * 10000.0), Nearest(x * 1000000.0);
    NearestRounds(x * 10000.0);
    NearestRounds(x * 1000000.0);
    hide Nearest, Rounds;
  }

  lemma NearestRounds(x: real)
    ensures Rounds(x, Nearest(x))
  {
  }

  lemma NearestIsMonotone(x: real, y: real)
    requires x <= y
    ensures Nearest(x) <= Nearest(y)
  {
    if y.Floor as real >= x { assert x.Floor <= y.Floor; }
  }

  lemma Round4IsMonotone(x: real, y: real)
    requires x <= y
    ensures Round4(x) <= Round4(y)
  {
    NearestIsMonotone(x * 10000.0, y * 10000.0);
  }

  lemma Round6IsMonotone(x: real, y: real)
    requires x <= y
    ensures Round6(x) <= Round6(y)
  {
    NearestIsMonotone(x * 1000000.0, y * 1000000.0);
  }

  lemma Round4IsClose(x: real)
    ensures x - 0.00005 <= Round4(x) <= x + 0.00005
  {
  }

  lemma Round6IsClose(x: real)
    ensures x - 0.0000005 <= Round6(x) <= x + 0.0000005
  {
  }

  lemma Round6KeepsUnit(x: real)
    requires 0.0 <= x <= 1.0
    ensures 0.0 <= Round6(x) <= 1.0
  {
    Round6IsMonotone(0.0, x);
    Round6IsMonotone(x, 1.0);
  }
}
