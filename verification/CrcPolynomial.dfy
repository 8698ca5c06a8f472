/**
 Polynomials over the two-element field, and the CRC as the remainder of polynomial division by
 x^16 + x^12 + x^5 + 1.
 */
module CrcPolynomial {
  import opened Words
  import opened Crc

  /** Coefficients, lowest degree first. */
  type Poly = seq<bool>

  function Coef(p: Poly, i: int): bool {
    0 <= i < |p| && p[i]
  }

  /** Equality of polynomials: leading zero coefficients do not count. */
  ghost predicate Same(p: Poly, q: Poly) {
    forall i: nat :: Coef(p, i) == Coef(q, i)
  }

  function Add(p: Poly, q: Poly): (s: Poly)
    ensures forall i: nat :: Coef(s, i) == (Coef(p, i) != Coef(q, i))
  {
    seq(if |p| < |q| then |q| else |p|, i requires i >= 0 => Coef(p, i) != Coef(q, i))
  }

  /** p(x) * x^k */
  function Raise(p: Poly, k: nat): Poly {
    Zeros(k) + p
  }

  function Times(p: Poly, q: Poly): Poly {
    if p == [] then [] else Add(if p[0] then q else [], Raise(Times(p[1..], q), 1))
  }

  /** x^16 + x^12 + x^5 + 1 */
  const G: Poly := GENERATOR + [true]

  /** The polynomial of a bit string whose first bit is the coefficient of the highest power. */
  function MessagePoly(bits: seq<bool>): Poly {
    if bits == [] then [] else [bits[|bits| - 1]] + MessagePoly(bits[..|bits| - 1])
  }

  /** `r` is a remainder of `p` modulo the CRC polynomial. */
  ghost predicate IsRemainder(p: Poly, r: Register) {
    exists q: Poly :: Same(p, Add(Times(q, G), r))
  }

  /** What the register divides: the message times x^16, with the initial value entering above it. */
  function Dividend(crc: Register, bits: seq<bool>): Poly {
    Add(Raise(MessagePoly(bits), 16), Raise(crc, |bits|))
  }

  lemma {:induction false} Division(crc: Register, bits: seq<bool>) returns (q: Poly)
    ensures Same(Dividend(crc, bits), Add(Times(q, G), CrcBits(crc, bits)))
  {
    if bits == [] {
      q := [];
    } else {
      var n := |bits| - 1;
      var q0 := Division(crc, bits[..n]);
      var r, b := CrcBits(crc, bits[..n]), bits[n];
      q := [r[15] != b] + q0;
      forall k: nat
        ensures Coef(Dividend(crc, bits), k) == Coef(Add(Times(q, G), CrcBits(crc, bits)), k)
      {
        DividendStep(crc, bits, k);
        TimesStep(r[15] != b, q0, k);
        StepCoef(r, b, k);
        if k > 0 {
          assert Coef(Dividend(crc, bits[..n]), k - 1) == Coef(Add(Times(q0, G), r), k - 1);
        }
      }
    }
  }

  lemma DividendStep(crc: Register, bits: seq<bool>, k: nat)
    requires bits != []
    ensures var n := |bits| - 1;
            Coef(Dividend(crc, bits), k) == ((k == 16 && bits[n]) != Coef(Dividend(crc, bits[..n]), k - 1))
  {
    var n := |bits| - 1;
    var m := MessagePoly(bits[..n]);
    assert Coef(Raise(MessagePoly(bits), 16), k) == ((k == 16 && bits[n]) != Coef(Raise(m, 16), k - 1));
    assert Coef(Raise(crc, n + 1), k) == Coef(Raise(crc, n), k - 1);
  }

  lemma CoefCons(b: bool, e: Poly, i: nat)
    ensures Coef([b] + e, i) == if i == 0 then b else Coef(e, i - 1)
  {
  }

  lemma TimesStep(b: bool, q: Poly, k: nat)
    ensures Coef(Times([b] + q, G), k) == ((b && Coef(G, k)) != Coef(Times(q, G), k - 1))
  {
    assert ([b] + q)[1..] == q;
  }

  lemma StepCoef(r: Register, b: bool, k: nat)
    ensures Coef(StepBit(r, b), k) ==
            ((k == 16 && r[15]) != (Coef(r, k - 1) != ((r[15] != b) && k < 16 && Coef(G, k))))
  {
  }

  lemma GeneratorCoef(k: nat)
    ensures Coef(G, k) == (k == 0 || k == 5 || k == 12 || k == 16)
  {
  }

  lemma {:induction false} TimesAdd(p: Poly, q: Poly, k: nat)
    ensures Coef(Times(Add(p, q), G), k) == (Coef(Times(p, G), k) != Coef(Times(q, G), k))
    decreases |p| + |q|
  {
    hide *;
    if p == [] || q == [] {
      TimesAddEmpty(p, k);
      TimesAddEmpty(q, k);
    } else {
      if k > 0 {
        TimesAdd(p[1..], q[1..], k - 1);
      }
      TimesAddStep(p, q, k);
    }
  }

  lemma TimesAddEmpty(p: Poly, k: nat)
    ensures Add(p, []) == p && Add([], p) == p && !Coef(Times([], G), k)
  {
  }

  lemma TimesAddStep(p: Poly, q: Poly, k: nat)
    requires p != [] && q != []
    requires k > 0 ==> Coef(Times(Add(p[1..], q[1..]), G), k - 1) ==
                       (Coef(Times(p[1..], G), k - 1) != Coef(Times(q[1..], G), k - 1))
    ensures Coef(Times(Add(p, q), G), k) == (Coef(Times(p, G), k) != Coef(Times(q, G), k))
  {
    hide Times, Add;
    AddCons(p, q);
    TimesHead(p, k);
    TimesHead(q, k);
    TimesHead(Add(p, q), k);
  }

  lemma TimesHead(p: Poly, k: nat)
    requires p != []
    ensures Coef(Times(p, G), k) == ((p[0] && Coef(G, k)) != Coef(Times(p[1..], G), k - 1))
  {
    assert p == [p[0]] + p[1..];
    TimesStep(p[0], p[1..], k);
  }

  lemma AddCons(p: Poly, q: Poly)
    requires p != [] && q != []
    ensures Add(p, q) != [] && Add(p, q)[0] == (p[0] != q[0]) && Add(p, q)[1..] == Add(p[1..], q[1..])
  {
  }

  lemma {:induction false} TimesZero(d: Poly, k: nat)
    requires forall i: nat :: !Coef(d, i)
    ensures !Coef(Times(d, G), k)
  {
    if d != [] {
      forall i: nat
        ensures !Coef(d[1..], i)
      {
        assert Coef(d[1..], i) == Coef(d, i + 1);
      }
      assert d == [d[0]] + d[1..] && d[0] == Coef(d, 0);
      TimesStep(d[0], d[1..], k);
      if k > 0 {
        TimesZero(d[1..], k - 1);
      }
    }
  }

  ghost predicate DegreeBelow16(p: Poly) {
    forall k: nat :: k >= 16 ==> !Coef(p, k)
  }

  lemma TailMultiple(b: bool, e: Poly)
    requires DegreeBelow16(Times([b] + e, G))
    ensures DegreeBelow16(Times(e, G))
  {
    hide Times;
    forall k: nat | k >= 16
      ensures !Coef(Times(e, G), k)
    {
      TimesStep(b, e, k + 1);
      GeneratorCoef(k + 1);
      assert !Coef(Times([b] + e, G), k + 1);
    }
  }

  /** A multiple of the CRC polynomial of degree below 16 has the cofactor zero. */
  lemma {:induction false} NoSmallMultiple(d: Poly)
    requires DegreeBelow16(Times(d, G))
    ensures forall i: nat :: !Coef(d, i)
  {
    if d != [] {
      hide Times, Coef;
      var b, e := d[0], d[1..];
      assert d == [b] + e;
      TailMultiple(b, e);
      NoSmallMultiple(e);
      assert !b by {
        TimesZero(e, 15);
        TimesStep(b, e, 16);
        GeneratorCoef(16);
      }
      forall i: nat
        ensures !Coef(d, i)
      {
        CoefCons(b, e, i);
      }
    }
  }

  /** Division by the CRC polynomial has one remainder only. */
  lemma RemainderUnique(p: Poly, r: Register, s: Register)
    requires IsRemainder(p, r) && IsRemainder(p, s)
    ensures r == s
  {
    var a: Poly :| Same(p, Add(Times(a, G), r));
    var b: Poly :| Same(p, Add(Times(b, G), s));
    var d := Add(a, b);
    forall k: nat
      ensures Coef(Times(d, G), k) == (Coef(r, k) != Coef(s, k))
    {
      TimesAdd(a, b, k);
      assert Coef(Add(Times(a, G), r), k) == Coef(p, k) == Coef(Add(Times(b, G), s), k);
    }
    NoSmallMultiple(d);
    forall k | 0 <= k < 16
      ensures r[k] == s[k]
    {
      TimesZero(d, k);
      assert Coef(r, k) == Coef(s, k);
    }
  }

  /** The register holds the remainder, and nothing else is one, whatever its initial value. */
  lemma CrcIsTheRemainder(crc: Register, bits: seq<bool>, r: Register)
    ensures IsRemainder(Dividend(crc, bits), r) <==> r == CrcBits(crc, bits)
  {
    var q := Division(crc, bits);
    if IsRemainder(Dividend(crc, bits), r) {
      RemainderUnique(Dividend(crc, bits), r, CrcBits(crc, bits));
    }
  }

  /** From the initial value 0 a message M leaves M(x) * x^16 mod x^16 + x^12 + x^5 + 1. */
  lemma CrcOfMessage(data: seq<Byte>, r: Register)
    ensures IsRemainder(Raise(MessagePoly(MessageBits(data)), 16), r) <==> r == CrcBytes(Zeros(16), data)
  {
    var bits := MessageBits(data);
    var m := Raise(MessagePoly(bits), 16);
    assert Same(m, Dividend(Zeros(16), bits)) by {
      forall i: nat
        ensures Coef(m, i) == Coef(Dividend(Zeros(16), bits), i)
      {
        assert !Coef(Raise(Zeros(16), |bits|), i);
      }
    }
    CrcIsTheRemainder(Zeros(16), bits, r);
    SameRemainders(m, Dividend(Zeros(16), bits), r);
  }

  lemma SameRemainders(p: Poly, p': Poly, r: Register)
    requires Same(p, p')
    ensures IsRemainder(p, r) <==> IsRemainder(p', r)
  {
    if IsRemainder(p, r) {
      var q: Poly :| Same(p, Add(Times(q, G), r));
      assert Same(p', Add(Times(q, G), r));
    }
    if IsRemainder(p', r) {
      var q: Poly :| Same(p', Add(Times(q, G), r));
      assert Same(p, Add(Times(q, G), r));
    }
  }
}
