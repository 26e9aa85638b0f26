/**
 * Index arithmetic of the image slider and the "active" flags it moves.
 *
 * The slider keeps `current`, an index into N >= 1 slides, and normalises
 * every requested index with `(index + N) % N`, where `%` is JavaScript's
 * remainder: it truncates toward zero, so its sign follows the dividend.
 */
module SliderIndex {

  /** JavaScript's `a % n` for a positive divisor: truncating, not Euclidean. */
  function JsRem(a: int, n: int): (r: int)
    requires n >= 1
    ensures -n < r < n
    ensures a >= 0 ==> r >= 0
    ensures a <= 0 ==> r <= 0
    ensures (a - r) % n == 0
  {
    if a >= 0 then
      ModOfDecomposition(a - a % n, n, a / n, 0);
      a % n
    else
      var b := -a;
      assert a + b % n == n * -(b / n);
      ModOfDecomposition(a + b % n, n, -(b / n), 0);
      -(b % n)
  }

  /**
   * The index `goTo(index)` stores: `(index + N) % N`. It lands in [0, N)
   * and agrees with the true modulo exactly when index >= -N or index is a
   * multiple of N (then it is 0); otherwise, below -N, it is negative.
   */
  function WrapIndex(index: int, n: int): (r: int)
    requires n >= 1
    ensures index >= -n ==> 0 <= r < n && r == index % n
    ensures index % n == 0 ==> r == 0
    ensures index < -n && index % n != 0 ==> r < 0
  {
    var a := index + n;
    assert index == n * (a / n - 1) + a % n;
    ModOfDecomposition(index, n, a / n - 1, a % n);
    if a < 0 && a % n == 0 then
      assert -a == n * -(a / n) + 0;
      ModOfDecomposition(-a, n, -(a / n), 0);
      JsRem(a, n)
    else
      JsRem(a, n)
  }

  /** The index `nextSlide` moves to from `c`. */
  function NextIndex(c: int, n: int): (r: int)
    requires 0 <= c < n
    ensures 0 <= r < n
    ensures c < n - 1 ==> r == c + 1
    ensures c == n - 1 ==> r == 0
  {
    if c < n - 1 then
      ModOfDecomposition(c + 1, n, 0, c + 1);
      WrapIndex(c + 1, n)
    else
      ModOfDecomposition(n, n, 1, 0);
      WrapIndex(c + 1, n)
  }

  /** The index `prevSlide` moves to from `c`. */
  function PrevIndex(c: int, n: int): (r: int)
    requires 0 <= c < n
    ensures 0 <= r < n
    ensures c > 0 ==> r == c - 1
    ensures c == 0 ==> r == n - 1
  {
    if c > 0 then
      ModOfDecomposition(c - 1, n, 0, c - 1);
      WrapIndex(c - 1, n)
    else
      ModOfDecomposition(-1, n, -1, n - 1);
      WrapIndex(c - 1, n)
  }

  /** The index reached from `c` after `k` calls of `nextSlide`. */
  function Advance(c: int, n: int, k: nat): (r: int)
    requires 0 <= c < n
    ensures 0 <= r < n
  {
    if k == 0 then c else NextIndex(Advance(c, n, k - 1), n)
  }

  /** `flags` marks position `k`, and only that one, as active. */
  ghost predicate ExactlyOneAt(flags: seq<bool>, k: int)
  {
    0 <= k < |flags| && forall i :: 0 <= i < |flags| ==> (flags[i] <==> i == k)
  }

  /** `n` flags with only position `k` active. */
  function OnlyAt(n: nat, k: int): (r: seq<bool>)
    requires 0 <= k < n
    ensures |r| == n && ExactlyOneAt(r, k)
  {
    seq(n, i => i == k)
  }

  /**
   * What `goTo` does to one array of flags: clear the flag at the old index,
   * then set the flag at the new one.
   */
  function MoveActive(flags: seq<bool>, from: int, to: int): (r: seq<bool>)
    requires 0 <= from < |flags| && 0 <= to < |flags|
    ensures |r| == |flags| && r[to]
    ensures from != to ==> !r[from]
    ensures forall i :: 0 <= i < |flags| && i != from && i != to ==> r[i] == flags[i]
    ensures ExactlyOneAt(flags, from) ==> ExactlyOneAt(r, to)
  {
    flags[from := false][to := true]
  }

  // ----- lemmas -----

  /** A positive multiple of a positive number is at least that number. */
  lemma MulAtLeast(n: int, d: int)
    requires n >= 1 && d >= 1
    ensures n * d >= n
  {
  }

  /** Euclidean remainder is determined by any decomposition a == n * q + s with 0 <= s < n. */
  lemma {:induction false} ModOfDecomposition(a: int, n: int, q: int, s: int)
    requires n >= 1 && 0 <= s < n && a == n * q + s
    ensures a % n == s
  {
    var q', s' := a / n, a % n;
    assert a == n * q' + s';
    if q' < q {
      assert n * (q - q') == n * q - n * q';
      MulAtLeast(n, q - q');
    } else if q' > q {
      assert n * (q' - q) == n * q' - n * q;
      MulAtLeast(n, q' - q);
    }
  }

  /** One step of `nextSlide` is one step of the true modulo. */
  lemma {:induction false} NextIndexIsSuccessorModN(y: int, n: int)
    requires n >= 1
    ensures NextIndex(y % n, n) == (y + 1) % n
  {
    var q := y / n;
    if y % n < n - 1 {
      ModOfDecomposition(y + 1, n, q, y % n + 1);
    } else {
      ModOfDecomposition(y + 1, n, q + 1, 0);
    }
  }

  /** `k` calls of `nextSlide` from `c` reach `(c + k) mod N`. */
  lemma {:induction false} AdvanceIsModular(c: int, n: int, k: nat)
    requires 0 <= c < n
    ensures Advance(c, n, k) == (c + k) % n
  {
    if k == 0 {
      ModOfDecomposition(c, n, 0, c);
    } else {
      AdvanceIsModular(c, n, k - 1);
      NextIndexIsSuccessorModN(c + k - 1, n);
    }
  }

  /** N calls of `nextSlide` bring the slider back to where it started. */
  lemma {:induction false} FullCycleReturns(c: int, n: int)
    requires 0 <= c < n
    ensures Advance(c, n, n) == c
  {
    AdvanceIsModular(c, n, n);
    ModOfDecomposition(c + n, n, 1, c);
  }

  /** `prevSlide` undoes `nextSlide` and `nextSlide` undoes `prevSlide`. */
  lemma PrevNextInverse(c: int, n: int)
    requires 0 <= c < n
    ensures PrevIndex(NextIndex(c, n), n) == c
    ensures NextIndex(PrevIndex(c, n), n) == c
  {
  }

  /**
   * Below -N the stored index is not the true modulo: with three slides,
   * `goTo(-4)` would store -1, where `((k mod N) + N) mod N` gives 2.
   */
  lemma WrapIndexBelowRange()
    ensures WrapIndex(-4, 3) == -1
    ensures ((-4 % 3) + 3) % 3 == 2
  {
  }
}
