/** Datatypes shared by the models of the backend's components. */
module Common {

  datatype Option<+T> = None | Some(value: T)

  datatype Result<+T, +E> = Ok(value: T) | Err(error: E)

  /** A floating-point input: an exact real, or one of the values `math.isfinite` refuses. */
  datatype Number = Finite(value: real) | Infinite(positive: bool) | NotANumber

  function Abs(x: real): real {
    if x < 0.0 then -x else x
  }

  /** A product under a name, so that a proof can hide it. */
  function Times(a: real, b: real): real {
    a * b
  }

  lemma TimesIsMonotone(a: real, b: real, c: real)
    requires a < b && c > 0.0
    ensures Times(a, c) < Times(b, c)
  {
    assert (b - a) * c > 0.0;
  }

  lemma TimesCancels(x: real, y: real, c: real)
    requires c > 0.0 && Times(x, c) <= Times(y, c)
    ensures x <= y
  {
    hide Times;
    if y < x { TimesIsMonotone(y, x, c); }
  }

  function Max(a: nat, b: nat): nat {
    if a < b then b else a
  }

  lemma QuotientRises(x: real, y: real, n: real)
    requires x <= y && n > 0.0
    ensures x / n <= y / n
  {
  }

  function Last<T>(xs: seq<T>): T
    requires xs != []
  {
    xs[|xs| - 1]
  }

  lemma Associative<T>(a: seq<T>, b: seq<T>, c: seq<T>)
    ensures (a + b) + c == a + (b + c)
  {
  }

  /** The final `n` elements, or everything when there are no more than `n`: a slice from -n. */
  function LastOf<T>(xs: seq<T>, n: nat): seq<T> {
    if |xs| <= n then xs else xs[|xs| - n..]
  }

  /** `tail` closes the sequence `xs`. */
  ghost predicate IsSuffix<T>(tail: seq<T>, xs: seq<T>) {
    |tail| <= |xs| && forall i :: 0 <= i < |tail| ==> tail[i] == xs[|xs| - |tail| + i]
  }

  lemma SuffixTransitive<T>(a: seq<T>, b: seq<T>, c: seq<T>)
    requires IsSuffix(a, b) && IsSuffix(b, c)
    ensures IsSuffix(a, c)
  {
    assert forall i :: 0 <= i < |a| ==> a[i] == b[|b| - |a| + i];
  }

  lemma SuffixSplits<T>(tail: seq<T>, xs: seq<T>) returns (front: seq<T>)
    requires IsSuffix(tail, xs)
    ensures front + tail == xs && front == xs[..|xs| - |tail|]
  {
    front := xs[..|xs| - |tail|];
  }

  lemma LastOfIsSuffix<T>(xs: seq<T>, n: nat)
    ensures IsSuffix(LastOf(xs, n), xs) && |LastOf(xs, n)| <= n && IsSuffix(xs, xs)
  {
  }

  lemma LastOfNewest<T>(xs: seq<T>, n: nat)
    requires xs != [] && n > 0
    ensures LastOf(xs, n) != [] && |LastOf(xs, n)| <= |xs| && Last(LastOf(xs, n)) == Last(xs)
    ensures LastOf(xs, n)[0] == xs[|xs| - |LastOf(xs, n)|]
  {
  }

  lemma SuffixOfTail<T>(tail: seq<T>, xs: seq<T>)
    requires xs != [] && IsSuffix(tail, xs[1..])
    ensures IsSuffix(tail, xs)
  {
  }

  /** `at` lists the positions of xs where p holds, in order. */
  ghost predicate Selects<T(!new)>(xs: seq<T>, p: T -> bool, at: seq<nat>) {
    && (forall i, j :: 0 <= i < j < |at| ==> at[i] < at[j])
    && (forall k: nat :: k in at <==> k < |xs| && p(xs[k]))
  }

  /** `ys` is what xs holds at the listed positions. */
  ghost predicate TakenAt<T>(ys: seq<T>, xs: seq<T>, at: seq<nat>) {
    |ys| == |at| && forall i :: 0 <= i < |at| ==> at[i] < |xs| && ys[i] == xs[at[i]]
  }

  lemma SelectsOneMore<T(!new)>(xs: seq<T>, p: T -> bool, at: seq<nat>)
    requires xs != [] && Selects(xs[..|xs| - 1], p, at)
    ensures Selects(xs, p, at + if p(Last(xs)) then [|xs| - 1] else [])
  {
    var init := xs[..|xs| - 1];
    var all := at + if p(Last(xs)) then [|xs| - 1] else [];
    forall i, j | 0 <= i < j < |all|
      ensures all[i] < all[j]
    {
      assert all[i] in at && all[i] < |init|;
    }
    forall k: nat
      ensures k in all <==> k < |xs| && p(xs[k])
    {
      assert k < |init| ==> init[k] == xs[k];
    }
  }

  lemma TakenOneMore<T>(ys: seq<T>, xs: seq<T>, at: seq<nat>, more: bool)
    requires xs != [] && TakenAt(ys, xs[..|xs| - 1], at)
    ensures TakenAt(ys + if more then [Last(xs)] else [], xs, at + if more then [|xs| - 1] else [])
  {
  }

  lemma NewestTaken<T>(ys: seq<T>, xs: seq<T>, at: seq<nat>, n: nat)
    requires TakenAt(ys, xs, at)
    ensures TakenAt(LastOf(ys, n), xs, if |at| <= n then at else at[|at| - n..])
  {
  }

  lemma NothingTaken<T>(xs: seq<T>)
    ensures TakenAt([], xs, [])
  {
  }

  lemma TakenPlus<T>(ys: seq<T>, xs: seq<T>, at: seq<nat>, k: nat)
    requires TakenAt(ys, xs, at) && k < |xs|
    ensures TakenAt(ys + [xs[k]], xs, at + [k]) && ys + [] == ys && at + [] == at
  {
  }

  /** The positions below n that satisfy p, in order. */
  function Picks(p: nat -> bool, n: nat): (js: seq<nat>)
    ensures forall i :: 0 <= i < |js| ==> js[i] < n && p(js[i])
  {
    if n == 0 then []
    else if p(n - 1) then Picks(p, n - 1) + [n - 1]
    else Picks(p, n - 1)
  }

  /** Picks lists every position that satisfies p, once, in increasing order. */
  lemma {:induction false} PicksExact(p: nat -> bool, n: nat)
    ensures forall j :: j in Picks(p, n) <==> 0 <= j < n && p(j)
    ensures forall a, b :: 0 <= a < b < |Picks(p, n)| ==> Picks(p, n)[a] < Picks(p, n)[b]
  {
    if n > 0 { PicksExact(p, n - 1); }
  }

  lemma {:induction false} PicksAgree(p: nat -> bool, q: nat -> bool, n: nat)
    requires forall j :: 0 <= j < n ==> p(j) == q(j)
    ensures Picks(p, n) == Picks(q, n)
  {
    if n > 0 { PicksAgree(p, q, n - 1); }
  }

  function ShiftAll(js: seq<nat>, offset: nat): (s: seq<nat>)
    ensures |s| == |js| && forall i :: 0 <= i < |js| ==> s[i] == js[i] + offset
  {
    seq(|js|, i requires 0 <= i < |js| => js[i] + offset)
  }

  lemma {:induction false} PicksNothing(p: nat -> bool, n: nat)
    requires forall j: nat :: j < n ==> !p(j)
    ensures Picks(p, n) == []
  {
    if n > 0 { PicksNothing(p, n - 1); }
  }

  /** Picking from position `cut` on finds the picks of the shifted predicate, moved back. */
  lemma {:induction false} PicksFrom(p: nat -> bool, cut: nat, n: nat)
    ensures Picks(p, cut + n) == Picks(p, cut) + ShiftAll(Picks((j: nat) => p(cut + j), n), cut)
  {
    var q := (j: nat) => p(cut + j);
    if n == 0 {
      assert ShiftAll([], cut) == [];
    } else {
      PicksFrom(p, cut, n - 1);
      if q(n - 1) {
        assert ShiftAll(Picks(q, n - 1) + [n - 1], cut) == ShiftAll(Picks(q, n - 1), cut) + [cut + (n - 1)];
      }
    }
  }

  /** A predicate that picks nothing below `first` and agrees with p from there has p's final picks. */
  lemma {:induction false} PicksLater(p: nat -> bool, q: nat -> bool, first: nat, n: nat)
    requires first <= n
    requires forall j: nat :: j < first ==> !q(j)
    requires forall j: nat :: first <= j < n ==> q(j) == p(j)
    ensures Picks(p, n) == Picks(p, first) + Picks(q, n)
  {
    if n == first {
      PicksNothing(q, first);
    } else {
      PicksLater(p, q, first, n - 1);
    }
  }

  /** If q, looking from position `cut` on, picks nothing below `first` and agrees with p from there,
      then the picks of q, moved back, close the picks of p. */
  lemma PicksShift(p: nat -> bool, q: nat -> bool, cut: nat, first: nat, n: nat)
    requires first <= n
    requires forall j: nat :: j < first ==> !q(j)
    requires forall j: nat :: first <= j < n ==> q(j) == p(cut + j)
    ensures IsSuffix(ShiftAll(Picks(q, n), cut), Picks(p, cut + n))
  {
    var shifted := (j: nat) => p(cut + j);
    PicksFrom(p, cut, n);
    PicksLater(shifted, q, first, n);
    ShiftConcat(Picks(p, cut), Picks(shifted, first), Picks(q, n), cut);
  }

  lemma ShiftConcat(before: seq<nat>, a: seq<nat>, b: seq<nat>, offset: nat)
    ensures IsSuffix(ShiftAll(b, offset), before + ShiftAll(a + b, offset))
  {
  }
}
