/** Master and slave parts of a telegram, their validation, and the values that handlers keep of them. */
module Telegram {
  import opened Bytes
  import opened Stuffing
  import opened Crc

  /** The value of a SequenceImpl: its bytes and whether they are in wire form. */
  datatype Buffer = Buffer(bytes: seq<byte>, extended: bool) {
    function Push(b: byte): Buffer {
      Buffer(bytes + [b], true)
    }

    function Reduced(): seq<byte> {
      if extended then Unstuff(bytes) else bytes
    }
  }

  const EMPTY := Buffer([], false)

  datatype SequenceState =
    | SeqEmpty | SeqOk | ErrTooShort | ErrTooLong | ErrSource | ErrTarget
    | ErrDataByte | ErrCrc | ErrAckInvalid | ErrAckMissing | ErrAckNegative

  /** The fields of TelegramImpl; the parts are kept logical and without CRC. */
  datatype Telegram = Telegram(
    kind: TelegramType,
    master: seq<byte>, masterCrc: byte, masterAck: byte, masterState: SequenceState,
    slave: seq<byte>, slaveCrc: byte, slaveAck: byte, slaveState: SequenceState)

  const CLEARED := Telegram(Undefined, [], 0, 0, SeqEmpty, [], 0, 0, SeqEmpty)

  /** QQ ZZ PB SB NN DBx, as sections 5.4 and 5.5 of the eBUS specification demand. */
  predicate ValidMaster(m: seq<byte>) {
    && |m| >= 5
    && IsMaster(m[0]) && IsTarget(m[1])
    && !NeedsEscape(m[2]) && !NeedsEscape(m[3])
    && m[4] <= MAX_DATA_BYTES && |m| == 5 + m[4]
  }

  /** NN DBx. */
  predicate ValidSlave(s: seq<byte>) {
    && |s| >= 1
    && s[0] <= MAX_DATA_BYTES && |s| == 1 + s[0]
  }

  /** A part followed by its CRC, in logical form. */
  function Part(body: seq<byte>): seq<byte> {
    body + [LogicalCrc(body)]
  }

  function KindOf(m: seq<byte>): TelegramType {
    if |m| >= 2 then TypeOf(m[1]) else Undefined
  }

  function CreateMaster(t: Telegram, s: seq<byte>): Telegram {
    if |s| < 5 then t.(masterState := ErrTooShort)
    else if !IsMaster(s[0]) then t.(masterState := ErrSource)
    else if !IsTarget(s[1]) then t.(masterState := ErrTarget)
    else if s[4] > MAX_DATA_BYTES then t.(masterState := ErrDataByte)
    else if NeedsEscape(s[2]) || NeedsEscape(s[3]) then t.(masterState := ErrDataByte)
    else
      var n := 5 + s[4];
      var typed := t.(kind := TypeOf(s[1]));
      if |s| < n then t.(masterState := ErrTooShort)
      else if |s| == n then typed.(master := s, masterCrc := LogicalCrc(s), masterState := SeqOk)
      else if |s| == n + 1 then
        typed.(master := s[..n], masterCrc := s[n],
               masterState := if LogicalCrc(s[..n]) == s[n] then SeqOk else ErrCrc)
      else typed.(masterState := ErrTooLong)
  }

  function CreateSlave(t: Telegram, s: seq<byte>): Telegram {
    if |s| < 2 then t.(slaveState := ErrTooShort)
    else if s[0] > MAX_DATA_BYTES then t.(slaveState := ErrDataByte)
    else
      var n := 1 + s[0];
      if |s| < n then t.(slaveState := ErrTooShort)
      else if |s| == n then t.(slave := s, slaveCrc := LogicalCrc(s), slaveState := SeqOk)
      else if |s| == n + 1 then
        t.(slave := s[..n], slaveCrc := s[n],
           slaveState := if LogicalCrc(s[..n]) == s[n] then SeqOk else ErrCrc)
      else t.(slaveState := ErrTooLong)
  }

  predicate HoldsMaster(t: Telegram) {
    && t.masterState == SeqOk && ValidMaster(t.master)
    && t.masterCrc == LogicalCrc(t.master) && t.kind == KindOf(t.master)
  }

  predicate HoldsSlave(t: Telegram) {
    t.slaveState == SeqOk && ValidSlave(t.slave) && t.slaveCrc == LogicalCrc(t.slave)
  }

  /** createMaster accepts exactly a valid master part, with its matching CRC or without any. */
  lemma CreateMasterExact(t: Telegram, s: seq<byte>)
    ensures var r := CreateMaster(t, s);
            && (r.masterState == SeqOk ==> HoldsMaster(r) && (s == r.master || s == Part(r.master)))
            && (forall m :: ValidMaster(m) && (s == m || s == Part(m)) ==> r.masterState == SeqOk && r.master == m)
            && r.(kind := t.kind, master := t.master, masterCrc := t.masterCrc, masterState := t.masterState) == t
  {
    hide LogicalCrc, IsMaster, TypeOf;
    forall m | ValidMaster(m) && (s == m || s == Part(m))
      ensures CreateMaster(t, s).masterState == SeqOk && CreateMaster(t, s).master == m
    {
      assert s[..|m|] == m;
      assert forall i :: 0 <= i < 5 ==> s[i] == m[i];
    }
  }

  /** createSlave likewise, except that NN = 0 is refused when its CRC is missing. */
  lemma CreateSlaveExact(t: Telegram, s: seq<byte>)
    ensures var r := CreateSlave(t, s);
            && (r.slaveState == SeqOk ==> HoldsSlave(r) && (s == r.slave || s == Part(r.slave)) && s != [0])
            && (forall m :: ValidSlave(m) && (s == m || s == Part(m)) && s != [0] ==> r.slaveState == SeqOk && r.slave == m)
            && r.(slave := t.slave, slaveCrc := t.slaveCrc, slaveState := t.slaveState) == t
  {
    hide LogicalCrc;
    forall m | ValidSlave(m) && (s == m || s == Part(m)) && s != [0]
      ensures CreateSlave(t, s).slaveState == SeqOk && CreateSlave(t, s).slave == m
    {
      assert s[..|m|] == m;
      assert s[0] == m[0];
      if |s| == 1 {
        assert s == [0];
      }
    }
  }

  /** What is reported of a part that is spoiled in one place. */
  lemma MasterFlawsNamed(t: Telegram, m: seq<byte>, x: byte, tail: seq<byte>)
    requires ValidMaster(m)
    ensures !IsMaster(x) ==> CreateMaster(t, m[0 := x]).masterState == ErrSource
    ensures !IsTarget(x) ==> CreateMaster(t, m[1 := x]).masterState == ErrTarget
    ensures NeedsEscape(x) ==>
              CreateMaster(t, m[2 := x]).masterState == ErrDataByte && CreateMaster(t, m[3 := x]).masterState == ErrDataByte
    ensures x > MAX_DATA_BYTES ==> CreateMaster(t, m[4 := x]).masterState == ErrDataByte
    ensures forall k :: 0 <= k < |m| ==> CreateMaster(t, m[..k]).masterState == ErrTooShort
    ensures x != LogicalCrc(m) ==> CreateMaster(t, m + [x]).masterState == ErrCrc
    ensures |tail| >= 2 ==> CreateMaster(t, m + tail).masterState == ErrTooLong
  {
    hide LogicalCrc, IsMaster;
    assert (m + [x])[..|m|] == m;
    forall k | 0 <= k < |m|
      ensures CreateMaster(t, m[..k]).masterState == ErrTooShort
    {
      assert k >= 5 ==> m[..k][4] == m[4];
    }
  }

  lemma SlaveFlawsNamed(t: Telegram, s: seq<byte>, x: byte, tail: seq<byte>)
    requires ValidSlave(s)
    ensures x > MAX_DATA_BYTES ==> CreateSlave(t, Part(s)[0 := x]).slaveState == ErrDataByte
    ensures forall k :: 0 <= k < |s| ==> CreateSlave(t, s[..k]).slaveState == ErrTooShort
    ensures CreateSlave(t, [0]).slaveState == ErrTooShort
    ensures x != LogicalCrc(s) ==> CreateSlave(t, s + [x]).slaveState == ErrCrc
    ensures |tail| >= 2 ==> CreateSlave(t, s + tail).slaveState == ErrTooLong
  {
    hide LogicalCrc;
    assert (s + [x])[..|s|] == s;
  }
}
