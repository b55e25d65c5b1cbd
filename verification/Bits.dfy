/** A byte as its eight bits, for the operations the source does bitwise. */
module Bits {
  import opened Bytes

  datatype Bits8 = Bits8(b7: bool, b6: bool, b5: bool, b4: bool, b3: bool, b2: bool, b1: bool, b0: bool)

  const ZERO := Bits8(false, false, false, false, false, false, false, false)

  function Weight(bit: bool, w: nat): nat {
    if bit then w else 0
  }

  function ValueOf(r: Bits8): byte {
    Weight(r.b7, 128) + Weight(r.b6, 64) + Weight(r.b5, 32) + Weight(r.b4, 16) +
    Weight(r.b3, 8) + Weight(r.b2, 4) + Weight(r.b1, 2) + Weight(r.b0, 1)
  }

  /** The binary digits, highest first. */
  function BitsOf(x: byte): Bits8 {
    var x6 := x - Weight(x >= 128, 128);
    var x5 := x6 - Weight(x6 >= 64, 64);
    var x4 := x5 - Weight(x5 >= 32, 32);
    var x3 := x4 - Weight(x4 >= 16, 16);
    var x2 := x3 - Weight(x3 >= 8, 8);
    var x1 := x2 - Weight(x2 >= 4, 4);
    var x0 := x1 - Weight(x1 >= 2, 2);
    Bits8(x >= 128, x6 >= 64, x5 >= 32, x4 >= 16, x3 >= 8, x2 >= 4, x1 >= 2, x0 >= 1)
  }

  function Xor(r: Bits8, s: Bits8): Bits8 {
    Bits8(r.b7 != s.b7, r.b6 != s.b6, r.b5 != s.b5, r.b4 != s.b4,
          r.b3 != s.b3, r.b2 != s.b2, r.b1 != s.b1, r.b0 != s.b0)
  }

  function And(r: Bits8, s: Bits8): Bits8 {
    Bits8(r.b7 && s.b7, r.b6 && s.b6, r.b5 && s.b5, r.b4 && s.b4,
          r.b3 && s.b3, r.b2 && s.b2, r.b1 && s.b1, r.b0 && s.b0)
  }

  /** One place up, the top bit dropped as a uint8_t drops it. */
  function ShiftLeft(r: Bits8): Bits8 {
    Bits8(r.b6, r.b5, r.b4, r.b3, r.b2, r.b1, r.b0, false)
  }

  lemma ValueOfBitsOf(x: byte)
    ensures ValueOf(BitsOf(x)) == x
  {
  }

  lemma TopBit(bit: bool, w: nat, rest: nat)
    requires rest < w
    ensures (Weight(bit, w) + rest >= w) == bit
    ensures Weight(bit, w) + rest < 2 * w
  {
  }

  lemma BitsOfValueOf(r: Bits8)
    ensures BitsOf(ValueOf(r)) == r
  {
    hide Weight;
    var t0 := Weight(r.b0, 1);
    var t1 := Weight(r.b1, 2) + t0;
    var t2 := Weight(r.b2, 4) + t1;
    var t3 := Weight(r.b3, 8) + t2;
    var t4 := Weight(r.b4, 16) + t3;
    var t5 := Weight(r.b5, 32) + t4;
    var t6 := Weight(r.b6, 64) + t5;
    TopBit(r.b0, 1, 0);
    TopBit(r.b1, 2, t0);
    TopBit(r.b2, 4, t1);
    TopBit(r.b3, 8, t2);
    TopBit(r.b4, 16, t3);
    TopBit(r.b5, 32, t4);
    TopBit(r.b6, 64, t5);
    TopBit(r.b7, 128, t6);
    assert ValueOf(r) == Weight(r.b7, 128) + t6;
    hide ValueOf;
    assert BitsOf(ValueOf(r)).b7 == r.b7 && ValueOf(r) - Weight(r.b7, 128) == t6;
  }
}
