/** Bytes of the wire, the reserved symbols and the address rules. */
module Bytes {
  type byte = x: int | 0 <= x < 256

  datatype Option<+T> = None | Some(value: T)

  const SYN: byte := 0xAA
  const EXT: byte := 0xA9
  const ACK: byte := 0x00
  const NAK: byte := 0xFF
  const BROADCAST: byte := 0xFE
  const MAX_DATA_BYTES: byte := 16

  datatype TelegramType = Undefined | Broadcast | MasterMaster | MasterSlave

  predicate NeedsEscape(b: byte) {
    b == SYN || b == EXT
  }

  /** The nibbles n with (n + 1) & n == 0. */
  predicate IsMasterNibble(n: int) {
    n == 0 || n == 1 || n == 3 || n == 7 || n == 15
  }

  predicate IsMaster(b: byte) {
    IsMasterNibble(b / 16) && IsMasterNibble(b % 16)
  }

  predicate IsSlave(b: byte) {
    !IsMaster(b) && b != SYN && b != EXT && b != BROADCAST
  }

  predicate IsTarget(b: byte) {
    b != SYN && b != EXT
  }

  function SlaveOf(b: byte): byte {
    if b == 0xFF then 0x04
    else if !IsMaster(b) then b
    else
      var result := (b + 5) % 256;
      if IsSlave(result) then result else b
  }

  function TypeOf(target: byte): TelegramType {
    if target == BROADCAST then Broadcast
    else if IsMaster(target) then MasterMaster
    else MasterSlave
  }

  /** The bit trick of the source picks exactly the listed nibbles. */
  lemma MasterNibbleTrick(n: bv8)
    requires n <= 0x0F
    ensures (n + 1) & n == 0 <==> IsMasterNibble(n as int)
  {
    assert n == 0 || n == 1 || n == 2 || n == 3 || n == 4 || n == 5 || n == 6 || n == 7 ||
           n == 8 || n == 9 || n == 10 || n == 11 || n == 12 || n == 13 || n == 14 || n == 15;
  }

  /** Every master owns a slave address that is a proper slave and never its own. */
  lemma SlaveOfMaster(b: byte)
    requires IsMaster(b)
    ensures IsSlave(SlaveOf(b)) && SlaveOf(b) != b && TypeOf(SlaveOf(b)) == MasterSlave
    ensures SlaveOf(b) == if b == 0xFF then 0x04 else b + 5
  {
    var hi, lo := b / 16, b % 16;
    if b != 0xFF {
      if lo == 15 {
        assert (b + 5) / 16 == hi + 1 && (b + 5) % 16 == 4;
      } else {
        assert (b + 5) / 16 == hi && (b + 5) % 16 == lo + 5;
      }
    }
  }

  /** No two masters share a slave address. */
  lemma SlaveOfInjective(b: byte, c: byte)
    requires IsMaster(b) && IsMaster(c) && SlaveOf(b) == SlaveOf(c)
    ensures b == c
  {
    SlaveOfMaster(b);
    SlaveOfMaster(c);
  }
}
