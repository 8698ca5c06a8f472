/**
 Unsigned machine words as their binary digits, least significant first, with the shift and xor
 operators of C and Python, and the bytes that travel between host and mote.
 */
module Words {
  import opened Arithmetic

  const TWO32: nat := 0x1_0000_0000

  type Byte = x: int | 0 <= x < 256
  type Uint32 = x: int | 0 <= x < 0x1_0000_0000
  type Word = seq<bool>

  function Xor(a: Word, b: Word): (c: Word)
    requires |a| == |b|
    ensures |c| == |a| && forall i :: 0 <= i < |c| ==> c[i] == (a[i] != b[i])
  {
    seq(|a|, i requires 0 <= i < |a| => a[i] != b[i])
  }

  function Or(a: Word, b: Word): (c: Word)
    requires |a| == |b|
    ensures |c| == |a| && forall i :: 0 <= i < |c| ==> c[i] == (a[i] || b[i])
  {
    seq(|a|, i requires 0 <= i < |a| => a[i] || b[i])
  }

  /** `a << k`, keeping the width of `a`. */
  function Shl(a: Word, k: nat): (c: Word)
    ensures |c| == |a| && forall i :: 0 <= i < |c| ==> c[i] == (k <= i && a[i - k])
  {
    seq(|a|, i requires 0 <= i < |a| => k <= i && a[i - k])
  }

  /** `a >> k` for an unsigned `a`. */
  function Shr(a: Word, k: nat): (c: Word)
    ensures |c| == |a| && forall i :: 0 <= i < |c| ==> c[i] == (i + k < |a| && a[i + k])
  {
    seq(|a|, i requires 0 <= i < |a| => i + k < |a| && a[i + k])
  }

  /** `a & ((1 << k) - 1)`. */
  function Low(a: Word, k: nat): (c: Word)
    ensures |c| == |a| && forall i :: 0 <= i < |c| ==> c[i] == (i < k && a[i])
  {
    seq(|a|, i requires 0 <= i < |a| => i < k && a[i])
  }

  function Zeros(width: nat): (c: Word)
    ensures |c| == width && forall i :: 0 <= i < width ==> !c[i]
  {
    seq(width, _ => false)
  }

  function Pow2(k: nat): (p: nat)
    ensures p > 0
  {
    if k == 0 then 1 else 2 * Pow2(k - 1)
  }

  /** The number a word denotes. */
  function ToNat(w: Word): nat {
    if w == [] then 0 else Digit(w[0]) + 2 * ToNat(w[1..])
  }

  /** The low `width` binary digits of a number. */
  function FromNat(n: nat, width: nat): (w: Word)
    ensures |w| == width
  {
    if width == 0 then [] else [n % 2 == 1] + FromNat(n / 2, width - 1)
  }

  lemma {:induction false} FromNatToNat(w: Word)
    ensures ToNat(w) < Pow2(|w|)
    ensures FromNat(ToNat(w), |w|) == w
  {
    if w != [] {
      FromNatToNat(w[1..]);
      assert ToNat(w) / 2 == ToNat(w[1..]);
    }
  }

  lemma {:induction false} ToNatFromNat(n: nat, width: nat)
    ensures ToNat(FromNat(n, width)) == n % Pow2(width)
  {
    if width != 0 {
      ToNatFromNat(n / 2, width - 1);
      assert FromNat(n, width)[1..] == FromNat(n / 2, width - 1);
      HalveMod(n, Pow2(width - 1));
    }
  }

  lemma {:induction false} FromNatDigit(n: nat, width: nat, i: nat)
    requires i < width
    ensures FromNat(n, width)[i] == ((n / Pow2(i)) % 2 == 1)
  {
    if i != 0 {
      FromNatDigit(n / 2, width - 1, i - 1);
      DivDiv(n, 2, Pow2(i - 1));
    }
  }

  function Digit(b: bool): nat {
    if b then 1 else 0
  }

  lemma ToNatHead(w: Word)
    requires w != []
    ensures ToNat(w) == Digit(w[0]) + 2 * ToNat(w[1..])
  {
  }

  lemma ToNatNibble(w: Word)
    requires |w| >= 4
    ensures ToNat(w) == Digit(w[0]) + 2 * Digit(w[1]) + 4 * Digit(w[2]) + 8 * Digit(w[3]) + 16 * ToNat(w[4..])
  {
    hide ToNat;
    var w1 := w[1..];
    var w2 := w1[1..];
    var w3 := w2[1..];
    assert w3[1..] == w[4..];
    ToNatHead(w);
    ToNatHead(w1);
    ToNatHead(w2);
    ToNatHead(w3);
  }

  lemma ToNat16(w: Word)
    requires |w| == 16
    ensures ToNat(w) ==
            Digit(w[0]) + 2 * Digit(w[1]) + 4 * Digit(w[2]) + 8 * Digit(w[3]) +
            16 * (Digit(w[4]) + 2 * Digit(w[5]) + 4 * Digit(w[6]) + 8 * Digit(w[7])) +
            256 * (Digit(w[8]) + 2 * Digit(w[9]) + 4 * Digit(w[10]) + 8 * Digit(w[11])) +
            4096 * (Digit(w[12]) + 2 * Digit(w[13]) + 4 * Digit(w[14]) + 8 * Digit(w[15]))
  {
    ToNatNibble(w);
    ToNatNibble(w[4..]);
    ToNatNibble(w[8..]);
    ToNatNibble(w[12..]);
    assert w[4..][4..] == w[8..] && w[8..][4..] == w[12..] && w[12..][4..] == [];
  }

  /** Equal-width words that denote the same number are the same word. */
  lemma ToNatInjective(a: Word, b: Word)
    requires |a| == |b| && ToNat(a) == ToNat(b)
    ensures a == b
  {
    FromNatToNat(a);
    FromNatToNat(b);
  }

  /** Only the low digits of a number reach a word. */
  lemma FromNatMod(m: nat, n: nat, width: nat)
    requires m % Pow2(width) == n % Pow2(width)
    ensures FromNat(m, width) == FromNat(n, width)
  {
    ToNatFromNat(m, width);
    ToNatFromNat(n, width);
    ToNatInjective(FromNat(m, width), FromNat(n, width));
  }

  /** Flip the binary digit of weight `p` in a number. */
  function FlipAt(t: nat, p: nat): (u: nat)
    requires p > 0
    ensures u == t + p || u == t - p
  {
    ModAtMost(t, 2 * p);
    if t % (2 * p) < p then t + p else t - p
  }

  lemma {:induction false} FlipDigit(t: nat, k: nat, width: nat)
    requires k < width
    ensures FromNat(FlipAt(t, Pow2(k)), width) == FromNat(t, width)[k := !FromNat(t, width)[k]]
  {
    var u := FlipAt(t, Pow2(k));
    if k != 0 {
      var p := Pow2(k - 1);
      HalveMod(t, 2 * p);
      assert u / 2 == FlipAt(t / 2, p) && u % 2 == t % 2;
      FlipDigit(t / 2, k - 1, width - 1);
    }
  }

  lemma {:induction false} ToNatPadded(w: Word, k: nat)
    ensures ToNat(w + Zeros(k)) == ToNat(w)
  {
    if w == [] {
      ToNatZeros(k);
      assert w + Zeros(k) == Zeros(k);
    } else {
      ToNatPadded(w[1..], k);
      assert (w + Zeros(k))[1..] == w[1..] + Zeros(k);
    }
  }

  lemma {:induction false} ToNatZeros(k: nat)
    ensures ToNat(Zeros(k)) == 0
  {
    if k != 0 {
      ToNatZeros(k - 1);
      assert Zeros(k)[1..] == Zeros(k - 1);
    }
  }
}
