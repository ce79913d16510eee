/** Strings of '0' and '1' characters, the representation the generator uses
    for its bitstream. */
module Bits {

  /** True iff every character of `s` is '0' or '1'. */
  predicate IsBits(s: string) {
    forall i :: 0 <= i < |s| ==> s[i] == '0' || s[i] == '1'
  }

  /** `n` copies of '0'. */
  function Zeros(n: nat): (r: string)
    ensures |r| == n
    ensures forall i :: 0 <= i < n ==> r[i] == '0'
  {
    seq(n, i => '0')
  }

  lemma BitsAppend(a: string, b: string)
    requires IsBits(a) && IsBits(b)
    ensures IsBits(a + b)
  {
  }
}
