/** Words as bit strings, most significant bit first, with C's bitwise operators. */
module Bits {

  type Bits = seq<bool>

  function Fill(b: bool, n: nat): (w: Bits)
    ensures |w| == n && forall i :: 0 <= i < n ==> w[i] == b
  {
    if n == 0 then [] else [b] + Fill(b, n - 1)
  }

  function Zeros(n: nat): (w: Bits)
    ensures |w| == n && forall i :: 0 <= i < n ==> !w[i]
  {
    Fill(false, n)
  }

  function Shl(w: Bits, k: nat): (r: Bits)
    requires k <= |w|
    ensures |r| == |w| && forall i :: 0 <= i < |w| ==> r[i] == (i + k < |w| && w[i + k])
  {
    w[k..] + Zeros(k)
  }

  function Shr(w: Bits, k: nat): (r: Bits)
    requires k <= |w|
    ensures |r| == |w| && forall i :: 0 <= i < |w| ==> r[i] == (i >= k && w[i - k])
  {
    Zeros(k) + w[..|w| - k]
  }

  function And(a: Bits, b: Bits): (r: Bits)
    requires |a| == |b|
    ensures |r| == |a| && forall i :: 0 <= i < |a| ==> r[i] == (a[i] && b[i])
  {
    if a == [] then [] else [a[0] && b[0]] + And(a[1..], b[1..])
  }

  function Or(a: Bits, b: Bits): (r: Bits)
    requires |a| == |b|
    ensures |r| == |a| && forall i :: 0 <= i < |a| ==> r[i] == (a[i] || b[i])
  {
    if a == [] then [] else [a[0] || b[0]] + Or(a[1..], b[1..])
  }

  function Xor(a: Bits, b: Bits): (r: Bits)
    requires |a| == |b|
    ensures |r| == |a| && forall i :: 0 <= i < |a| ==> r[i] == (a[i] != b[i])
  {
    if a == [] then [] else [a[0] != b[0]] + Xor(a[1..], b[1..])
  }

  function Not(a: Bits): (r: Bits)
    ensures |r| == |a| && forall i :: 0 <= i < |a| ==> r[i] == !a[i]
  {
    if a == [] then [] else [!a[0]] + Not(a[1..])
  }

  predicate AllZero(w: Bits) {
    forall i :: 0 <= i < |w| ==> !w[i]
  }

  // ---- as numbers ----------------------------------------------------------------------------

  function Value(w: Bits): nat {
    if w == [] then 0 else 2 * Value(w[..|w| - 1]) + if w[|w| - 1] then 1 else 0
  }

  /** Leading zeros are worth nothing. */
  lemma {:induction false} ZeroExtended(k: nat, w: Bits)
    ensures Value(Zeros(k) + w) == Value(w)
    decreases k + |w|
  {
    if w == [] {
      assert Zeros(k) + w == Zeros(k);
      if k > 0 {
        assert Zeros(k)[..k - 1] == Zeros(k - 1) + [];
        ZeroExtended(k - 1, []);
      }
    } else {
      assert (Zeros(k) + w)[..k + |w| - 1] == Zeros(k) + w[..|w| - 1];
      ZeroExtended(k, w[..|w| - 1]);
    }
  }
}
