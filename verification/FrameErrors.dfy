/**
 Which damage to a frame on the line the reader is sure to report: a short burst or an odd number of wrong bits among
 the bytes that carry the body, as long as it neither makes nor breaks a flag or an escape.
 */
module FrameErrors {
  import opened Words
  import opened Crc
  import opened CrcErrors
  import opened Hdlc

  // ---------- Damage to the body ----------

  /** What the reader makes of bytes that unescape to a changed body and the trailer of the right one. */
  lemma DamagedFrameRead(wire: seq<Byte>, body: seq<Byte>, damaged: seq<Byte>)
    requires UnescapeState(wire) == (damaged + Trailer(body), false)
    ensures FrameContent(wire) == Received(damaged, CrcBytes(Zeros(16), damaged) == CrcBytes(Zeros(16), body))
  {
    hide FrameContent, UnescapeState, Trailer, CrcBytes, ToNat;
    WireOpened(wire, damaged, Trailer(body));
    TrailerDecodes(body);
    if CrcNumber(damaged) == CrcNumber(body) {
      ToNatInjective(CrcBytes(Zeros(16), damaged), CrcBytes(Zeros(16), body));
    }
  }

  /** A burst of at most sixteen bits inside the body is always reported. */
  lemma BurstReported(wire: seq<Byte>, body: seq<Byte>, damaged: seq<Byte>, at: nat)
    requires UnescapeState(wire) == (damaged + Trailer(body), false) && |damaged| == |body| && damaged != body
    requires forall k :: 0 <= k < 8 * |body| && MessageBits(damaged)[k] != MessageBits(body)[k] ==> at <= k < at + 16
    ensures FrameContent(wire) == Received(damaged, false)
  {
    hide FrameContent, UnescapeState, Trailer, CrcBytes;
    BurstDetected(Zeros(16), damaged, body, at);
    DamagedFrameRead(wire, body, damaged);
  }

  /** So is an odd number of wrong bits. */
  lemma OddErrorsReported(wire: seq<Byte>, body: seq<Byte>, damaged: seq<Byte>)
    requires UnescapeState(wire) == (damaged + Trailer(body), false)
    requires |damaged| == |body| && Parity(Xor(MessageBits(damaged), MessageBits(body)))
    ensures FrameContent(wire) == Received(damaged, false)
  {
    hide FrameContent, UnescapeState, Trailer, CrcBytes;
    OddErrorsDetected(Zeros(16), damaged, body);
    DamagedFrameRead(wire, body, damaged);
  }

  // ---------- Damage on the line ----------

  /** The same bytes are flags and escapes in both. */
  ghost predicate SameMarks(a: seq<Byte>, b: seq<Byte>) {
    |a| == |b| && forall k :: 0 <= k < |a| && a[k] != b[k] ==> {a[k], b[k]} !! {FLAG, CTLESC}
  }

  /** All differing bits lie among sixteen in a row. */
  ghost predicate InWindow(u: seq<Byte>, v: seq<Byte>, at: int)
    requires |u| == |v|
  {
    forall i, j :: 0 <= i < |u| && 0 <= j < 8 && BitsOf(u[i])[j] != BitsOf(v[i])[j] ==> at <= 8 * i + j < at + 16
  }

  /** Toggling the same bit of two bytes leaves them different where they were. */
  lemma TogglePreserves(x: Byte, y: Byte)
    ensures Xor(BitsOf(Toggled(x)), BitsOf(Toggled(y))) == Xor(BitsOf(x), BitsOf(y))
  {
    ToggledBits(x);
    ToggledBits(y);
  }

  lemma ToggledBits(b: Byte)
    ensures BitsOf(Toggled(b)) == BitsOf(b)[2 := !BitsOf(b)[2]]
  {
    hide FromNat;
    assert Pow2(5) == 32;
    FlipDigit(b, 5, 8);
    assert Toggled(b) == FlipAt(b, 32);
  }

  /** What the bytes at one place of two sequences with the same marks add: nothing, or bytes that differ as they do. */
  lemma BothNext(a: seq<Byte>, b: seq<Byte>, n: nat) returns (x: seq<Byte>, y: seq<Byte>)
    requires SameMarks(a, b) && n < |a| && UnescapeState(a[..n]).1 == UnescapeState(b[..n]).1
    ensures UnescapeState(a[..n + 1]).1 == UnescapeState(b[..n + 1]).1
    ensures UnescapeOf(a[..n + 1]) == UnescapeOf(a[..n]) + x && UnescapeOf(b[..n + 1]) == UnescapeOf(b[..n]) + y
    ensures |x| == |y| <= 1 && (x == [] ==> a[n] == b[n])
    ensures x != [] ==> Xor(BitsOf(x[0]), BitsOf(y[0])) == Xor(BitsOf(a[n]), BitsOf(b[n]))
  {
    hide UnescapeState, Toggled, BitsOf, Xor;
    UnescapeNext(a[..n], a[n]);
    UnescapeNext(b[..n], b[n]);
    assert a[..n + 1] == a[..n] + [a[n]] && b[..n + 1] == b[..n] + [b[n]];
    if UnescapeState(a[..n]).1 {
      TogglePreserves(a[n], b[n]);
      x, y := [Toggled(a[n])], [Toggled(b[n])];
    } else if a[n] == CTLESC {
      x, y := [], [];
    } else {
      x, y := [a[n]], [b[n]];
    }
  }

  lemma {:induction false} Parallel(a: seq<Byte>, b: seq<Byte>, n: nat)
    requires SameMarks(a, b) && n <= |a|
    ensures UnescapeState(a[..n]).1 == UnescapeState(b[..n]).1
    ensures |UnescapeOf(a[..n])| == |UnescapeOf(b[..n])|
  {
    if n > 0 {
      hide UnescapeState, SameMarks, BitsOf;
      Parallel(a, b, n - 1);
      var x, y := BothNext(a, b, n - 1);
    }
  }

  /**
   Unescaping brings wrong bits closer together, if anything: from the first damaged byte on, a byte moves down by at
   least as much as that one.
   */
  lemma {:induction false} WindowKept(a: seq<Byte>, b: seq<Byte>, first: nat, at: nat, n: nat)
    requires SameMarks(a, b) && first < n <= |a| && a[..first] == b[..first] && a[first] != b[first]
    requires 8 * first <= at < 8 * first + 8 && InWindow(a, b, at)
    ensures var r, s := UnescapeOf(a[..n]), UnescapeOf(b[..n]);
            var k := |UnescapeOf(a[..first])|;
            && |r| == |s| && k + 1 <= |r| <= k + n - first && r[k] != s[k]
            && InWindow(r, s, at - 8 * first + 8 * k)
  {
    hide UnescapeOf, InWindow, BitsOf;
    var k := |UnescapeOf(a[..first])|;
    Parallel(a, b, n - 1);
    var r, s := UnescapeOf(a[..n - 1]), UnescapeOf(b[..n - 1]);
    var x, y := BothNext(a, b, n - 1);
    if n - 1 > first {
      WindowKept(a, b, first, at, n - 1);
    } else {
      StillDifferent(a[first], b[first], x, y);
      NoWindow(r, at - 8 * first + 8 * k);
    }
    ByteInWindow(a, b, at, n - 1);
    WindowStep(r, s, x, y, a[n - 1], b[n - 1], n - 1, first, at, k);
  }

  lemma NoWindow(r: seq<Byte>, at: int)
    ensures InWindow(r, r, at)
  {
  }

  lemma StillDifferent(p: Byte, q: Byte, x: seq<Byte>, y: seq<Byte>)
    requires p != q && |x| == |y| && x != [] && Xor(BitsOf(x[0]), BitsOf(y[0])) == Xor(BitsOf(p), BitsOf(q))
    ensures x[0] != y[0]
  {
    hide BitsOf;
    BitsOfInjective(p, q);
    if x[0] == y[0] {
      forall j | 0 <= j < 8
        ensures BitsOf(p)[j] == BitsOf(q)[j]
      {
        assert !Xor(BitsOf(x[0]), BitsOf(y[0]))[j];
      }
    }
  }

  lemma ByteInWindow(a: seq<Byte>, b: seq<Byte>, at: int, n: nat)
    requires |a| == |b| && n < |a| && InWindow(a, b, at)
    ensures forall j :: 0 <= j < 8 && BitsOf(a[n])[j] != BitsOf(b[n])[j] ==> at <= 8 * n + j < at + 16
  {
    hide BitsOf;
  }

  /** The window after one more byte of two sequences that have moved down by as much as the first damaged one. */
  lemma WindowStep(
    r: seq<Byte>, s: seq<Byte>, x: seq<Byte>, y: seq<Byte>, p: Byte, q: Byte, n: nat, first: nat, at: nat, k: nat)
    requires |r| == |s| && |x| == |y| <= 1 && InWindow(r, s, at - 8 * first + 8 * k)
    requires first <= n && |r| <= k + n - first && (if n == first then |r| == k else k < |r|)
    requires 8 * first <= at < 8 * first + 8
    requires x != [] ==> Xor(BitsOf(x[0]), BitsOf(y[0])) == Xor(BitsOf(p), BitsOf(q))
    requires forall j :: 0 <= j < 8 && BitsOf(p)[j] != BitsOf(q)[j] ==> at <= 8 * n + j < at + 16
    ensures InWindow(r + x, s + y, at - 8 * first + 8 * k)
  {
    hide BitsOf;
    forall i, j | 0 <= i < |r + x| && 0 <= j < 8 && BitsOf((r + x)[i])[j] != BitsOf((s + y)[i])[j]
      ensures at - 8 * first + 8 * k <= 8 * i + j < at - 8 * first + 8 * k + 16
    {
      if i < |r| {
        assert BitsOf(r[i])[j] != BitsOf(s[i])[j];
      } else {
        assert Xor(BitsOf(x[0]), BitsOf(y[0]))[j] && Xor(BitsOf(p), BitsOf(q))[j];
      }
    }
  }

  // ---------- Parity ----------

  /** Whether an odd number of bits differ. */
  function OddlyDifferent(u: seq<Byte>, v: seq<Byte>): bool
    requires |u| == |v|
  {
    if u == [] then false
    else
      var n := |u| - 1;
      OddlyDifferent(u[..n], v[..n]) != Parity(Xor(BitsOf(u[n]), BitsOf(v[n])))
  }

  lemma OddlySnoc(u: seq<Byte>, v: seq<Byte>, x: Byte, y: Byte)
    requires |u| == |v|
    ensures OddlyDifferent(u + [x], v + [y]) == (OddlyDifferent(u, v) != Parity(Xor(BitsOf(x), BitsOf(y))))
  {
    hide Parity, BitsOf;
    assert (u + [x])[..|u|] == u && (v + [y])[..|v|] == v;
  }

  lemma {:induction false} OddlyIsParity(u: seq<Byte>, v: seq<Byte>)
    requires |u| == |v|
    ensures OddlyDifferent(u, v) == Parity(Xor(MessageBits(u), MessageBits(v)))
  {
    hide Parity, BitsOf, MessageBits;
    if u == [] {
      NoParity();
      assert Xor(MessageBits(u), MessageBits(v)) == [];
    } else {
      var n := |u| - 1;
      OddlyIsParity(u[..n], v[..n]);
      OddlyIsParityNext(u, v, n);
    }
  }

  lemma NoParity()
    ensures !Parity([])
  {
  }

  lemma OddlyIsParityNext(u: seq<Byte>, v: seq<Byte>, n: nat)
    requires |u| == |v| == n + 1
    ensures Parity(Xor(MessageBits(u), MessageBits(v))) ==
            (Parity(Xor(MessageBits(u[..n]), MessageBits(v[..n]))) != Parity(Xor(BitsOf(u[n]), BitsOf(v[n]))))
  {
    hide Parity, BitsOf, Xor;
    var a, b := MessageBits(u[..n]), MessageBits(v[..n]);
    var x, y := BitsOf(u[n]), BitsOf(v[n]);
    assert MessageBits(u) == a + x && MessageBits(v) == b + y;
    XorConcat(a, b, x, y);
    ParityConcat(Xor(a, b), Xor(x, y));
  }

  lemma XorConcat(a: Word, b: Word, x: Word, y: Word)
    requires |a| == |b| && |x| == |y|
    ensures Xor(a + x, b + y) == Xor(a, b) + Xor(x, y)
  {
  }

  lemma {:induction false} ParityConcat(a: seq<bool>, b: seq<bool>)
    ensures Parity(a + b) == (Parity(a) != Parity(b))
  {
    if b == [] {
      assert a + b == a && !Parity([]);
    } else {
      ParityConcat(a, b[..|b| - 1]);
      assert (a + b)[..|a + b| - 1] == a + b[..|b| - 1];
    }
  }

  lemma SameIsEven(p: Byte)
    ensures !Parity(Xor(BitsOf(p), BitsOf(p)))
  {
    hide BitsOf;
    assert Xor(BitsOf(p), BitsOf(p)) == Zeros(8);
    assert [] + Zeros(8) == Zeros(8);
    ParityPadded([], 8);
  }

  lemma NothingDiffers()
    ensures OddlyDifferent([], []) == false && UnescapeOf([]) == []
  {
  }

  /** Unescaping keeps the number of differing bits odd or even. */
  lemma {:induction false} ParityKept(a: seq<Byte>, b: seq<Byte>, n: nat)
    requires SameMarks(a, b) && n <= |a|
    ensures |UnescapeOf(a[..n])| == |UnescapeOf(b[..n])|
    ensures OddlyDifferent(UnescapeOf(a[..n]), UnescapeOf(b[..n])) == OddlyDifferent(a[..n], b[..n])
  {
    hide UnescapeState, UnescapeOf, OddlyDifferent, BitsOf, Parity, Xor;
    Parallel(a, b, n);
    NothingDiffers();
    if n > 0 {
      var m := n - 1;
      ParityKept(a, b, m);
      Parallel(a, b, m);
      var x, y := BothNext(a, b, m);
      OddlySnoc(a[..m], b[..m], a[m], b[m]);
      assert a[..n] == a[..m] + [a[m]] && b[..n] == b[..m] + [b[m]];
      if x == [] {
        SameIsEven(a[m]);
        assert UnescapeOf(a[..m]) + [] == UnescapeOf(a[..m]) && UnescapeOf(b[..m]) + [] == UnescapeOf(b[..m]);
      } else {
        assert x == [x[0]] && y == [y[0]];
        OddlySnoc(UnescapeOf(a[..m]), UnescapeOf(b[..m]), x[0], y[0]);
      }
    }
  }

  // ---------- What the reader reports ----------

  /** The bytes between the flags of a frame on the line, damaged where the body is, and in no flag or escape. */
  ghost predicate BodyDamaged(body: seq<Byte>, wire: seq<Byte>) {
    var sent, n := EscapeOf(body + Trailer(body)), |EscapeOf(body)|;
    SameMarks(sent, wire) && n <= |sent| && wire[n..] == sent[n..]
  }

  /** A damaged body unescapes to one of the same length, in front of the right trailer. */
  lemma DamagedUnescapes(body: seq<Byte>, wire: seq<Byte>) returns (damaged: seq<Byte>)
    requires BodyDamaged(body, wire)
    ensures var sent, n := EscapeOf(body + Trailer(body)), |EscapeOf(body)|;
            && n <= |sent| == |wire| && sent[..n] == EscapeOf(body)
            && UnescapeOf(sent[..n]) == body && UnescapeOf(wire[..n]) == damaged
            && |damaged| == |body| && UnescapeState(wire) == (damaged + Trailer(body), false)
  {
    var sent, n := EscapeOf(body + Trailer(body)), |EscapeOf(body)|;
    hide UnescapeState, EscapeOf, Trailer;
    EscapeConcat(body, Trailer(body));
    UnescapeNothing();
    UnescapeEscape([], body);
    assert [] + EscapeOf(body) == EscapeOf(body) && [] + body == body;
    Parallel(sent, wire, n);
    damaged := UnescapeOf(wire[..n]);
    UnescapeEscape(wire[..n], Trailer(body));
    assert wire == wire[..n] + wire[n..] && sent[n..] == EscapeOf(Trailer(body));
  }

  /** A burst of at most sixteen bits on the line is always reported. */
  lemma WireBurstReported(body: seq<Byte>, wire: seq<Byte>, at: nat)
    requires BodyDamaged(body, wire) && wire != EscapeOf(body + Trailer(body))
    requires var sent := EscapeOf(body + Trailer(body));
             forall k :: 0 <= k < 8 * |sent| && MessageBits(wire)[k] != MessageBits(sent)[k] ==> at <= k < at + 16
    ensures exists damaged :: FrameContent(wire) == Received(damaged, false)
  {
    hide UnescapeState, UnescapeOf, EscapeOf, Trailer, FrameContent, MessageBits, BitsOf;
    var sent, n := EscapeOf(body + Trailer(body)), |EscapeOf(body)|;
    var damaged := DamagedUnescapes(body, wire);
    var a, b := sent[..n], wire[..n];
    assert a != b by { assert sent == a + sent[n..] && wire == b + wire[n..]; }
    var first := FirstDifferingByte(a, b);
    var from := if at < 8 * first then 8 * first else at;
    WindowOfBits(sent, wire, a, b, first, at, from);
    assert SameMarks(a, b);
    WindowKept(a, b, first, from, n);
    assert a[..n] == a && b[..n] == b;
    var k := |UnescapeOf(a[..first])|;
    BitsOfWindow(body, damaged, from - 8 * first + 8 * k);
    BurstReported(wire, body, damaged, from - 8 * first + 8 * k);
  }

  lemma {:induction false} FirstDifferingByte(a: seq<Byte>, b: seq<Byte>) returns (f: nat)
    requires |a| == |b| && a != b
    ensures f < |a| && a[..f] == b[..f] && a[f] != b[f]
  {
    if a[0] != b[0] {
      f := 0;
    } else {
      f := FirstDifferingByte(a[1..], b[1..]);
      f := f + 1;
      assert a[..f] == [a[0]] + a[1..][..f - 1] && b[..f] == [b[0]] + b[1..][..f - 1];
    }
  }

  /** The window may be moved up to the first damaged byte. */
  lemma WindowOfBits(
    sent: seq<Byte>, wire: seq<Byte>, a: seq<Byte>, b: seq<Byte>, first: nat, at: nat, from: nat)
    requires |sent| == |wire| && a <= sent && b <= wire && |a| == |b|
    requires first < |a| && a[..first] == b[..first] && a[first] != b[first]
    requires from == if at < 8 * first then 8 * first else at
    requires forall k :: 0 <= k < 8 * |sent| && MessageBits(wire)[k] != MessageBits(sent)[k] ==> at <= k < at + 16
    ensures InWindow(a, b, from) && 8 * first <= from < 8 * first + 8
  {
    hide MessageBits, BitsOf;
    assert forall i :: 0 <= i < first ==> a[..first][i] == a[i] && b[..first][i] == b[i];
    forall i, j | 0 <= i < |a| && 0 <= j < 8 && BitsOf(a[i])[j] != BitsOf(b[i])[j]
      ensures from <= 8 * i + j < from + 16
    {
      BitOfByte(sent, i, j);
      BitOfByte(wire, i, j);
    }
    BitsOfInjective(a[first], b[first]);
    var j :| 0 <= j < 8 && BitsOf(a[first])[j] != BitsOf(b[first])[j];
  }

  lemma BitsOfWindow(u: seq<Byte>, v: seq<Byte>, at: int)
    requires |u| == |v| && InWindow(u, v, at)
    ensures forall k :: 0 <= k < 8 * |u| && MessageBits(v)[k] != MessageBits(u)[k] ==> at <= k < at + 16
  {
    hide MessageBits, BitsOf;
    forall k | 0 <= k < 8 * |u| && MessageBits(v)[k] != MessageBits(u)[k]
      ensures at <= k < at + 16
    {
      BitOfByte(u, k / 8, k % 8);
      BitOfByte(v, k / 8, k % 8);
    }
  }

  /** So is an odd number of wrong bits on the line. */
  lemma WireOddErrorsReported(body: seq<Byte>, wire: seq<Byte>)
    requires BodyDamaged(body, wire)
    requires Parity(Xor(MessageBits(wire), MessageBits(EscapeOf(body + Trailer(body)))))
    ensures exists damaged :: FrameContent(wire) == Received(damaged, false)
  {
    hide UnescapeState, UnescapeOf, EscapeOf, Trailer, FrameContent, MessageBits, Parity, OddlyDifferent;
    var sent, n := EscapeOf(body + Trailer(body)), |EscapeOf(body)|;
    var damaged := DamagedUnescapes(body, wire);
    OddlyIsParity(wire, sent);
    OddlyTail(wire, sent, n);
    assert SameMarks(wire, sent);
    ParityKept(wire, sent, n);
    OddlyIsParity(damaged, body);
    OddErrorsReported(wire, body, damaged);
  }

  lemma {:induction false} OddlyTail(u: seq<Byte>, v: seq<Byte>, n: nat)
    requires |u| == |v| && n <= |u| && u[n..] == v[n..]
    ensures OddlyDifferent(u, v) == OddlyDifferent(u[..n], v[..n])
  {
    hide OddlyDifferent, Parity, BitsOf, Xor;
    if n < |u| {
      var m := |u| - 1;
      assert u[m] == u[n..][m - n] == v[n..][m - n] == v[m];
      assert u[..m][n..] == u[n..][..m - n] && v[..m][n..] == v[n..][..m - n];
      SameIsEven(u[m]);
      OddlyTail(u[..m], v[..m], n);
      OddlySnoc(u[..m], v[..m], u[m], v[m]);
      assert u == u[..m] + [u[m]] && v == v[..m] + [v[m]];
      assert u[..m][..n] == u[..n] && v[..m][..n] == v[..n];
    } else {
      assert u[..n] == u && v[..n] == v;
    }
  }
}
