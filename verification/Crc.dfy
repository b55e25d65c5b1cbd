/** The eBUS CRC-8: bitwise and table-driven computation, and what it means as a polynomial remainder. */
module Crc {
  import opened Bits
  import opened Bytes
  import opened Stuffing

  /** 0x9B */
  const POLYNOMIAL := Bits8(true, false, false, true, true, false, true, true)

  /** Multiplication by x modulo P = x^8 + x^7 + x^4 + x^3 + x + 1 (0x9B is P without its leading term). */
  function TimesX(c: Bits8): Bits8 {
    Bits8(c.b6 != c.b7, c.b5, c.b4, c.b3 != c.b7, c.b2 != c.b7, c.b1, c.b0 != c.b7, c.b7)
  }

  lemma TimesXIsShift(c: Bits8)
    ensures TimesX(c) == if c.b7 then Xor(ShiftLeft(c), POLYNOMIAL) else ShiftLeft(c)
  {
    if c.b7 {
      assert Xor(ShiftLeft(c), POLYNOMIAL).b7 == (c.b6 != true);
    }
  }

  function TimesXPow(n: nat, c: Bits8): Bits8 {
    if n == 0 then c else TimesX(TimesXPow(n - 1, c))
  }

  /** One table entry: multiplication by x^8 modulo P. */
  function Entry(c: Bits8): Bits8 {
    TimesX(TimesX(TimesX(TimesX(TimesX(TimesX(TimesX(TimesX(c))))))))
  }

  lemma EntryIsPow8(c: Bits8)
    ensures TimesXPow(8, c) == Entry(c)
  {
    hide TimesX;
    assert TimesXPow(7, c) == TimesX(TimesXPow(6, c));
    assert TimesXPow(6, c) == TimesX(TimesXPow(5, c));
    assert TimesXPow(5, c) == TimesX(TimesXPow(4, c));
    assert TimesXPow(4, c) == TimesX(TimesXPow(3, c));
    assert TimesXPow(3, c) == TimesX(TimesXPow(2, c));
    assert TimesXPow(2, c) == TimesX(TimesXPow(1, c));
  }

  method CalculateCrcEntry(index: Bits8) returns (crc: Bits8)
    ensures crc == Entry(index)
  {
    crc := index;
    for i := 0 to 8
      invariant crc == TimesXPow(i, index)
    {
      TimesXIsShift(crc);
      if crc.b7 {
        crc := Xor(ShiftLeft(crc), POLYNOMIAL);
      } else {
        crc := ShiftLeft(crc);
      }
    }
    EntryIsPow8(index);
  }

  method GenerateCrcTable() returns (table: seq<Bits8>)
    ensures |table| == 256
    ensures forall i: byte :: table[i] == Entry(BitsOf(i))
  {
    hide Entry, BitsOf;
    table := [];
    for i := 0 to 256
      invariant |table| == i
      invariant forall j: byte :: j < i ==> table[j] == Entry(BitsOf(j))
    {
      var e := CalculateCrcEntry(BitsOf(i));
      table := table + [e];
    }
  }

  /** The CRC register after the bytes of `w`, most significant byte first. */
  function Register(w: seq<byte>): Bits8 {
    if w == [] then ZERO else Xor(Entry(Register(w[..|w| - 1])), BitsOf(w[|w| - 1]))
  }

  /** CRC of a sequence of wire bytes. */
  function WireCrc(w: seq<byte>): byte {
    ValueOf(Register(w))
  }

  /** CRC of logical bytes: the CRC of their stuffed form. */
  function LogicalCrc(s: seq<byte>): byte {
    WireCrc(Stuff(s))
  }

  lemma RegisterEscape(w: seq<byte>, b: byte)
    requires NeedsEscape(b)
    ensures Register(w + Escape(b)) ==
            Xor(Entry(Xor(Entry(Register(w)), BitsOf(EXT))), BitsOf(Escape(b)[1]))
  {
    hide Entry, Xor, BitsOf;
    var e := Escape(b);
    assert (w + e)[..|w| + 1] == w + [EXT];
    assert (w + [EXT])[..|w|] == w;
  }

  lemma RegisterSnoc(w: seq<byte>, b: byte)
    ensures Register(w + [b]) == Xor(Entry(Register(w)), BitsOf(b))
  {
    hide Entry, Xor, BitsOf;
    assert (w + [b])[..|w|] == w;
  }

  /** calcCRC: one table access. */
  function Lookup(table: seq<Bits8>, init: Bits8, b: byte): Bits8
    requires |table| == 256
  {
    Xor(table[ValueOf(init)], BitsOf(b))
  }

  lemma LookupIsEntry(table: seq<Bits8>, init: Bits8, b: byte)
    requires |table| == 256 && forall i: byte :: table[i] == Entry(BitsOf(i))
    ensures Lookup(table, init, b) == Xor(Entry(init), BitsOf(b))
  {
    hide Entry, Xor, BitsOf, ValueOf;
    BitsOfValueOf(init);
  }

  /** Folding over logical bytes, escaping on the fly, gives the CRC of the stuffed form. */
  method CalculateCrc(data: seq<byte>, extended: bool) returns (crc: byte)
    ensures crc == if extended then WireCrc(data) else LogicalCrc(data)
  {
    hide Entry, Xor, BitsOf, ValueOf, Lookup;
    var table := GenerateCrcTable();
    var current: Bits8 := ZERO;
    ghost var wire: seq<byte> := [];
    for i := 0 to |data|
      invariant wire == if extended then data[..i] else Stuff(data[..i])
      invariant current == Register(wire)
    {
      var b := data[i];
      assert data[..i + 1] == data[..i] + [b];
      StuffSnoc(data[..i], b);
      if !extended && NeedsEscape(b) {
        var second: byte := if b == SYN then 0x01 else 0x00;
        RegisterEscape(wire, b);
        LookupIsEntry(table, current, EXT);
        current := Lookup(table, current, EXT);
        LookupIsEntry(table, current, second);
        current := Lookup(table, current, second);
        wire := wire + Escape(b);
      } else {
        RegisterSnoc(wire, b);
        LookupIsEntry(table, current, b);
        current := Lookup(table, current, b);
        wire := wire + [b];
      }
    }
    assert data[..|data|] == data;
    crc := ValueOf(current);
  }

  // ---------- The register is the remainder of the message polynomial ----------

  /** Coefficients of a byte, lowest degree first. */
  function Coefs(c: Bits8): seq<bool> {
    [c.b0, c.b1, c.b2, c.b3, c.b4, c.b5, c.b6, c.b7]
  }

  /** Coefficient k of a byte; zero from degree 8 on. */
  predicate Bit(c: Bits8, k: nat) {
    if k == 0 then c.b0 else if k == 1 then c.b1 else if k == 2 then c.b2 else if k == 3 then c.b3
    else if k == 4 then c.b4 else if k == 5 then c.b5 else if k == 6 then c.b6 else k == 7 && c.b7
  }

  /** Coefficient k of a polynomial given by its coefficients; zero outside. */
  predicate Coef(p: seq<bool>, k: int) {
    0 <= k < |p| && p[k]
  }

  /** The message as one polynomial: the last byte holds the lowest degrees. */
  function Poly(w: seq<byte>): seq<bool> {
    if w == [] then [] else Coefs(BitsOf(w[|w| - 1])) + Poly(w[..|w| - 1])
  }

  predicate Differ(a: bool, b: bool) {
    a != b
  }

  /** Coefficient k of q * (x^8 + x^7 + x^4 + x^3 + x + 1). */
  predicate TimesP(q: seq<bool>, k: int) {
    Differ(Coef(q, k - 8), Differ(Coef(q, k - 7), Differ(Coef(q, k - 4),
    Differ(Coef(q, k - 3), Differ(Coef(q, k - 1), Coef(q, k))))))
  }

  /** m == q * P + r. */
  ghost predicate Divides(m: seq<bool>, q: seq<bool>, r: Bits8) {
    forall k: nat :: Coef(m, k) == Differ(TimesP(q, k), Bit(r, k))
  }

  lemma TimesPShift(q: seq<bool>, top: bool, k: nat)
    ensures TimesP([top] + q, k) ==
            Differ(k > 0 && TimesP(q, k - 1), top && (k == 8 || k == 7 || k == 4 || k == 3 || k == 1 || k == 0))
  {
    assert forall j: int :: Coef([top] + q, j) == if j == 0 then top else Coef(q, j - 1);
  }

  lemma DivideStep(m: seq<bool>, q: seq<bool>, r: Bits8)
    requires Divides(m, q, r)
    ensures Divides([false] + m, [r.b7] + q, TimesX(r))
  {
    hide TimesP, TimesX;
    forall k: nat
      ensures Coef([false] + m, k) == Differ(TimesP([r.b7] + q, k), Bit(TimesX(r), k))
    {
      assert Coef([false] + m, k) == (k > 0 && Coef(m, k - 1));
      if k > 0 {
        assert Coef(m, k - 1) == Differ(TimesP(q, k - 1), Bit(r, k - 1));
      }
      TimesPShift(q, r.b7, k);
      ShiftedCoef(r, k);
    }
  }

  /** How the coefficients move when a remainder is multiplied by x and reduced. */
  lemma ShiftedCoef(r: Bits8, k: nat)
    ensures Bit(TimesX(r), k) ==
            Differ(k > 0 && k != 8 && Bit(r, k - 1),
                r.b7 && (k == 7 || k == 4 || k == 3 || k == 1 || k == 0))
  {
  }

  lemma DivideByte(m: seq<bool>, q: seq<bool>, r: Bits8) returns (q': seq<bool>)
    requires Divides(m, q, r)
    ensures Divides(Coefs(ZERO) + m, q', Entry(r))
  {
    var z, c := m, r;
    q' := q;
    for i := 0 to 8
      invariant |z| == |m| + i
      invariant forall j :: 0 <= j < i ==> !z[j]
      invariant z[i..] == m
      invariant c == TimesXPow(i, r)
      invariant Divides(z, q', c)
    {
      DivideStep(z, q', c);
      q' := [c.b7] + q';
      z := [false] + z;
      c := TimesX(c);
    }
    EntryIsPow8(r);
    assert z == Coefs(ZERO) + m;
  }

  lemma LowByteCoef(m: seq<bool>, b: Bits8, k: nat)
    ensures Coef(Coefs(b) + m, k) == if k < 8 then Bit(b, k) else Coef(m, k - 8)
  {
  }

  lemma AddLowByte(m: seq<bool>, q: seq<bool>, r: Bits8, b: Bits8)
    requires Divides(Coefs(ZERO) + m, q, r)
    ensures Divides(Coefs(b) + m, q, Xor(r, b))
  {
    hide Xor, TimesP, Coefs, Coef;
    forall k: nat
      ensures Coef(Coefs(b) + m, k) == Differ(TimesP(q, k), Bit(Xor(r, b), k))
    {
      assert Coef(Coefs(ZERO) + m, k) == Differ(TimesP(q, k), Bit(r, k));
      LowByteCoef(m, ZERO, k);
      LowByteCoef(m, b, k);
      XorCoef(r, b, k);
    }
  }

  lemma XorCoef(r: Bits8, b: Bits8, k: nat)
    ensures Bit(Xor(r, b), k) == Differ(Bit(r, k), Bit(b, k))
  {
  }

  /** The register is a remainder of the message: some quotient completes the division. */
  lemma {:induction false} RegisterIsRemainder(w: seq<byte>) returns (q: seq<bool>)
    ensures Divides(Poly(w), q, Register(w))
  {
    if w == [] {
      q := [];
    } else {
      hide Entry, Xor, BitsOf, Coefs;
      var v, b := w[..|w| - 1], BitsOf(w[|w| - 1]);
      q := RegisterIsRemainder(v);
      q := DivideByte(Poly(v), q, Register(v));
      AddLowByte(Poly(v), q, Entry(Register(v)), b);
    }
  }

  lemma {:induction false} QuotientsAgree(m: seq<bool>, q1: seq<bool>, r1: Bits8, q2: seq<bool>, r2: Bits8, j: nat)
    requires Divides(m, q1, r1) && Divides(m, q2, r2)
    ensures forall i: nat :: i >= j ==> Coef(q1, i) == Coef(q2, i)
    decreases |q1| + |q2| - j
  {
    if j < |q1| + |q2| {
      QuotientsAgree(m, q1, r1, q2, r2, j + 1);
      assert Coef(m, j + 8) == Differ(TimesP(q1, j + 8), Bit(r1, j + 8));
      assert Coef(m, j + 8) == Differ(TimesP(q2, j + 8), Bit(r2, j + 8));
    }
  }

  lemma SameProduct(q1: seq<bool>, q2: seq<bool>, k: nat)
    requires forall i: nat :: i >= 0 ==> Coef(q1, i) == Coef(q2, i)
    ensures TimesP(q1, k) == TimesP(q2, k)
  {
    assert forall i: int :: Coef(q1, i) == Coef(q2, i);
  }

  lemma SameCoefs(r1: Bits8, r2: Bits8)
    requires forall k: nat :: Bit(r1, k) == Bit(r2, k)
    ensures r1 == r2
  {
    assert Bit(r1, 0) == Bit(r2, 0);
    assert Bit(r1, 1) == Bit(r2, 1);
    assert Bit(r1, 2) == Bit(r2, 2);
    assert Bit(r1, 3) == Bit(r2, 3);
    assert Bit(r1, 4) == Bit(r2, 4);
    assert Bit(r1, 5) == Bit(r2, 5);
    assert Bit(r1, 6) == Bit(r2, 6);
    assert Bit(r1, 7) == Bit(r2, 7);
  }

  /** The CRC is the remainder: r leaves the division exact if and only if it is the register. */
  lemma CrcIsTheRemainder(w: seq<byte>, r: Bits8)
    ensures (exists q :: Divides(Poly(w), q, r)) <==> r == Register(w)
  {
    hide Entry, Xor, BitsOf, Bit, Register, Poly, TimesP;
    var q0 := RegisterIsRemainder(w);
    if q :| Divides(Poly(w), q, r) {
      QuotientsAgree(Poly(w), q, r, q0, Register(w), 0);
      forall k: nat ensures Bit(r, k) == Bit(Register(w), k) {
        assert Coef(Poly(w), k) == Differ(TimesP(q, k), Bit(r, k));
        assert Coef(Poly(w), k) == Differ(TimesP(q0, k), Bit(Register(w), k));
        SameProduct(q, q0, k);
      }
      SameCoefs(r, Register(w));
    }
  }

  // ---------- Linearity and error detection ----------

  function XorBytes(a: seq<byte>, b: seq<byte>): (r: seq<byte>)
    requires |a| == |b|
    ensures |r| == |a|
  {
    seq(|a|, i requires 0 <= i < |a| => ValueOf(Xor(BitsOf(a[i]), BitsOf(b[i]))))
  }

  lemma XorExchange(c: Bits8, d: Bits8, e: Bits8, f: Bits8)
    ensures Xor(Xor(c, d), Xor(e, f)) == Xor(Xor(c, e), Xor(d, f))
  {
  }

  lemma {:induction false} CrcLinear(a: seq<byte>, b: seq<byte>)
    requires |a| == |b|
    ensures Register(XorBytes(a, b)) == Xor(Register(a), Register(b))
  {
    if a == [] {
      assert XorBytes(a, b) == [];
    } else {
      hide Entry, Xor, BitsOf, ValueOf;
      var n := |a| - 1;
      CrcLinear(a[..n], b[..n]);
      assert XorBytes(a, b)[..n] == XorBytes(a[..n], b[..n]);
      EntryLinear(Register(a[..n]), Register(b[..n]));
      BitsOfValueOf(Xor(BitsOf(a[n]), BitsOf(b[n])));
      XorExchange(Entry(Register(a[..n])), Entry(Register(b[..n])), BitsOf(a[n]), BitsOf(b[n]));
    }
  }

  lemma TimesXLinear(c: Bits8, d: Bits8)
    ensures TimesX(Xor(c, d)) == Xor(TimesX(c), TimesX(d))
  {
  }

  lemma TimesXInjective(c: Bits8, d: Bits8)
    requires TimesX(c) == TimesX(d)
    ensures c == d
  {
    assert c.b7 == d.b7;
  }

  lemma {:induction false} PowLinear(n: nat, c: Bits8, d: Bits8)
    ensures TimesXPow(n, Xor(c, d)) == Xor(TimesXPow(n, c), TimesXPow(n, d))
    ensures TimesXPow(n, c) == TimesXPow(n, d) ==> c == d
  {
    hide TimesX, Xor;
    if n > 0 {
      PowLinear(n - 1, c, d);
      TimesXLinear(TimesXPow(n - 1, c), TimesXPow(n - 1, d));
      if TimesXPow(n, c) == TimesXPow(n, d) {
        TimesXInjective(TimesXPow(n - 1, c), TimesXPow(n - 1, d));
      }
    }
  }

  lemma XorCancels(c: Bits8, d: Bits8, e: Bits8)
    requires Xor(c, e) == Xor(d, e)
    ensures c == d
  {
  }

  lemma EntryLinear(c: Bits8, d: Bits8)
    ensures Entry(Xor(c, d)) == Xor(Entry(c), Entry(d))
    ensures Entry(c) == Entry(d) ==> c == d
  {
    hide TimesXPow, Entry, Xor;
    PowLinear(8, c, d);
    EntryIsPow8(c);
    EntryIsPow8(d);
    EntryIsPow8(Xor(c, d));
  }

  /** Registers that differ stay different while equal bytes follow. */
  lemma {:induction false} DifferenceSurvives(a: seq<byte>, b: seq<byte>, tail: seq<byte>)
    requires Register(a) != Register(b)
    ensures Register(a + tail) != Register(b + tail)
  {
    hide Entry, BitsOf, Xor;
    if tail == [] {
      assert a + tail == a && b + tail == b;
    } else {
      var t, z := tail[..|tail| - 1], tail[|tail| - 1];
      DifferenceSurvives(a, b, t);
      assert a + tail == (a + t) + [z] && b + tail == (b + t) + [z];
      RegisterSnoc(a + t, z);
      RegisterSnoc(b + t, z);
      EntryLinear(Register(a + t), Register(b + t));
      if Register(a + tail) == Register(b + tail) {
        XorCancels(Entry(Register(a + t)), Entry(Register(b + t)), BitsOf(z));
      }
    }
  }

  /** Changing one wire byte, anywhere and to anything else, changes the CRC. */
  lemma SingleByteErrorDetected(w: seq<byte>, i: nat, b: byte)
    requires i < |w| && b != w[i]
    ensures WireCrc(w[i := b]) != WireCrc(w)
  {
    hide Entry, BitsOf, ValueOf, Register;
    var x, y := w[..i] + [w[i]], w[..i] + [b];
    RegisterSnoc(w[..i], w[i]);
    RegisterSnoc(w[..i], b);
    ValueOfBitsOf(w[i]);
    ValueOfBitsOf(b);
    DifferenceSurvives(x, y, w[i + 1..]);
    assert w == x + w[i + 1..];
    assert w[i := b] == y + w[i + 1..];
    BitsOfValueOf(Register(w));
    BitsOfValueOf(Register(w[i := b]));
  }
}
