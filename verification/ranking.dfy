/**
 * Positional encoding of a sequence of digits in base `b`, most significant
 * digit first. The solver's termination argument maps its state to such a
 * sequence and shows that every step either raises the encoding or keeps it
 * and moves the backtracking position towards the start.
 */
module Ranking {

  function Pow(b: nat, n: nat): (r: nat)
    ensures b > 0 ==> r > 0
  {
    if n == 0 then 1 else b * Pow(b, n - 1)
  }

  /** Every entry of `ks` is a digit in base `b`. */
  predicate Digits(ks: seq<int>, b: int) {
    forall i :: 0 <= i < |ks| ==> 0 <= ks[i] < b
  }

  /** Horner evaluation of `ks` in base `b`. */
  function Enc(ks: seq<int>, b: int): int {
    if |ks| == 0 then 0 else Enc(ks[..|ks| - 1], b) * b + ks[|ks| - 1]
  }

  lemma MulMono(x: int, y: int, b: int)
    requires 0 < b && x <= y
    ensures x * b <= y * b
  {
  }

  /** One Horner step stays below the next power. */
  lemma HornerBound(e: int, d: int, bound: int, b: int)
    requires 0 < b && 0 <= e < bound && 0 <= d < b
    ensures 0 <= e * b + d < b * bound
  {
    MulMono(e + 1, bound, b);
    assert (e + 1) * b == e * b + b;
    assert 0 <= e * b;
  }

  /** One Horner step preserves a strict order of the prefixes. */
  lemma HornerLess(e1: int, d1: int, e2: int, d2: int, b: int)
    requires 0 < b && e1 < e2 && 0 <= d1 < b && 0 <= d2
    ensures e1 * b + d1 < e2 * b + d2
  {
    MulMono(e1 + 1, e2, b);
    assert (e1 + 1) * b == e1 * b + b;
  }

  /** An encoding of `n` digits fits in `n` places. */
  lemma {:induction false} EncBounds(ks: seq<int>, b: int)
    requires b > 0 && Digits(ks, b)
    ensures 0 <= Enc(ks, b) < Pow(b, |ks|)
  {
    if |ks| > 0 {
      var n := |ks|;
      var front := ks[..n - 1];
      assert Digits(front, b);
      EncBounds(front, b);
      HornerBound(Enc(front, b), ks[n - 1], Pow(b, n - 1), b);
    }
  }

  /**
   * Lexicographic order of equal-length digit sequences agrees with the
   * order of their encodings: a sequence that first exceeds another at
   * place `p` encodes to a larger number.
   */
  lemma {:induction false} EncLexLess(ks1: seq<int>, ks2: seq<int>, b: int, p: int)
    requires b > 0 && Digits(ks1, b) && Digits(ks2, b)
    requires |ks1| == |ks2| && 0 <= p < |ks1|
    requires forall i :: 0 <= i < p ==> ks1[i] == ks2[i]
    requires ks1[p] < ks2[p]
    ensures Enc(ks1, b) < Enc(ks2, b)
  {
    var n := |ks1|;
    var f1, f2 := ks1[..n - 1], ks2[..n - 1];
    if n == p + 1 {
      assert f1 == f2;
    } else {
      assert Digits(f1, b) && Digits(f2, b);
      EncLexLess(f1, f2, b, p);
      HornerLess(Enc(f1, b), ks1[n - 1], Enc(f2, b), ks2[n - 1], b);
    }
  }
}
