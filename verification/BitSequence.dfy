/** Polynomials over GF(2) as bit sequences, highest power first. */
module BitSequence {
  type Bits = seq<bool>

  function Zeros(n: nat): Bits { seq(n, _ => false) }

  /** Addition of polynomials of equal length. */
  function Add(a: Bits, b: Bits): (r: Bits)
    requires |a| == |b|
    ensures |r| == |a|
  {
    seq(|a|, i requires 0 <= i < |a| => a[i] != b[i])
  }
}
