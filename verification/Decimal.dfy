/**
 Decimal digits: their value, the maximal run of digits in a text, and canonical printing
 (what `internal::u64toa` and its siblings write).
 */
module Decimal {
  import opened Bytes

  predicate IsDigit(b: byte) {
    ZERO <= b <= NINE
  }

  predicate AllDigits(w: Text) {
    forall k | 0 <= k < |w| :: IsDigit(w[k])
  }

  /** The number a digit string denotes. */
  function Value(w: Text): (v: nat)
    requires AllDigits(w)
  {
    if w == [] then 0 else 10 * Value(w[..|w| - 1]) + (w[|w| - 1] - ZERO)
  }

  /** The position after the maximal run of digits that starts at `p`. */
  function DigitsEnd(s: Text, p: nat): (q: nat)
    requires p <= |s|
    ensures p <= q <= |s|
    ensures AllDigits(s[p..q])
    ensures !IsDigit(Peek(s, q))
    decreases |s| - p
  {
    if IsDigit(Peek(s, p)) then
      var q := DigitsEnd(s, p + 1);
      assert s[p..q] == [s[p]] + s[p + 1..q];
      q
    else p
  }

  /** The run of digits is determined by its two defining properties. */
  lemma {:induction false} DigitsEndUnique(s: Text, p: nat, q: nat)
    requires p <= q <= |s| && AllDigits(s[p..q]) && !IsDigit(Peek(s, q))
    ensures DigitsEnd(s, p) == q
    decreases q - p
  {
    if p < q {
      assert s[p] == s[p..q][0];
      assert s[p + 1..q] == s[p..q][1..];
      DigitsEndUnique(s, p + 1, q);
    }
  }

  /** Reading one more digit, as every accumulator loop does. */
  lemma ValueStep(s: Text, p: nat, q: nat)
    requires p <= q < |s| && AllDigits(s[p..q]) && IsDigit(s[q])
    ensures AllDigits(s[p..q + 1])
    ensures Value(s[p..q + 1]) == 10 * Value(s[p..q]) + (s[q] - ZERO)
  {
    assert s[p..q + 1] == s[p..q] + [s[q]];
    assert s[p..q + 1][..q - p] == s[p..q];
  }

  /** A longer digit string denotes at least as much. */
  lemma {:induction false} ValueMonotone(w: Text, k: nat)
    requires AllDigits(w) && k <= |w|
    ensures Value(w[..k]) <= Value(w)
    decreases |w| - k
  {
    if k == |w| {
      assert w[..k] == w;
    } else {
      ValueMonotone(w, k + 1);
      assert w[..k + 1][..k] == w[..k];
    }
  }

  function Pow10(n: nat): nat {
    if n == 0 then 1 else 10 * Pow10(n - 1)
  }

  /** `n` digits denote less than the `n`th power of ten. */
  lemma {:induction false} ValueBelow(w: Text, n: nat)
    requires AllDigits(w) && |w| <= n
    ensures Value(w) < Pow10(n)
    decreases n
  {
    if w != [] {
      ValueBelow(w[..|w| - 1], n - 1);
    } else if n > 0 {
      ValueBelow(w, n - 1);
    }
  }

  /** Canonical decimal printing. */
  function Digits(n: nat): (w: Text)
    ensures |w| > 0 && AllDigits(w)
    ensures Value(w) == n
    ensures w[0] == ZERO <==> n == 0
    ensures n == 0 ==> w == [ZERO]
  {
    if n < 10 then
      var w: Text := [ZERO + n];
      assert w[..0] == [];
      w
    else
      var d: byte := ZERO + n % 10;
      var w: Text := Digits(n / 10) + [d];
      assert w[..|w| - 1] == Digits(n / 10);
      w
  }

  /** A digit string without a leading zero is the canonical print of its value. */
  lemma {:induction false} DigitsOfValue(w: Text)
    requires |w| > 0 && AllDigits(w) && (|w| > 1 ==> w[0] != ZERO)
    ensures Digits(Value(w)) == w
  {
    var u := w[..|w| - 1];
    if |w| == 1 {
      assert u == [];
    } else {
      DigitsOfValue(u);
      assert u[0] == w[0];
      if |u| == 1 {
        assert u[..0] == [];
        assert Value(u) == u[0] - ZERO;
      }
      assert Value(u) > 0;
      assert w == u + [w[|w| - 1]];
    }
  }
}
