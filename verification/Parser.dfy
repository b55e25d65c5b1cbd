/** Telegram::parse as an object with a cursor, and the grammar it decides. */
module Parser {
  import opened Bytes
  import opened Stuffing
  import opened Crc
  import opened Telegram
  import Framing = Sequence

  /** A complete exchange: an optional refused attempt of each part, then the accepted parts. */
  datatype Exchange = Exchange(
    refusedMaster: Option<seq<byte>>, master: seq<byte>,
    refusedSlave: Option<seq<byte>>, slave: Option<seq<byte>>)

  /** BC | [M NAK] M ACK | [M NAK] M ACK [S NAK] S ACK */
  predicate WellFormed(e: Exchange) {
    && ValidMaster(e.master)
    && (e.refusedMaster.Some? ==>
          && ValidMaster(e.refusedMaster.value) && KindOf(e.refusedMaster.value) != Broadcast
          && KindOf(e.master) != Broadcast)
    && (e.slave.Some? <==> KindOf(e.master) == MasterSlave)
    && (e.slave.Some? ==> ValidSlave(e.slave.value))
    && (e.refusedSlave.Some? ==> e.slave.Some? && ValidSlave(e.refusedSlave.value))
  }

  function Refused(part: Option<seq<byte>>): seq<byte> {
    if part.Some? then Part(part.value) + [NAK] else []
  }

  function SlaveBytes(e: Exchange): seq<byte> {
    if e.slave.Some? then Refused(e.refusedSlave) + (Part(e.slave.value) + [ACK]) else []
  }

  function MasterBytes(e: Exchange): seq<byte> {
    Refused(e.refusedMaster) + (Part(e.master) + if KindOf(e.master) == Broadcast then [] else [ACK])
  }

  /** The logical bytes of the exchange between two SYNs. */
  function Logical(e: Exchange): seq<byte> {
    MasterBytes(e) + SlaveBytes(e)
  }

  // ---------- A reference reader ----------

  function MasterAt(u: seq<byte>, o: nat): Option<seq<byte>> {
    if o + 5 <= |u| && o + 6 + u[o + 4] <= |u|
       && ValidMaster(u[o..o + 5 + u[o + 4]]) && u[o + 5 + u[o + 4]] == LogicalCrc(u[o..o + 5 + u[o + 4]])
    then Some(u[o..o + 5 + u[o + 4]]) else None
  }

  function SlaveAt(u: seq<byte>, o: nat): Option<seq<byte>> {
    if o + 1 <= |u| && o + 2 + u[o] <= |u|
       && ValidSlave(u[o..o + 1 + u[o]]) && u[o + 1 + u[o]] == LogicalCrc(u[o..o + 1 + u[o]])
    then Some(u[o..o + 1 + u[o]]) else None
  }

  function ReadSlave(u: seq<byte>, o: nat, refused: Option<seq<byte>>, m: seq<byte>): Option<Exchange>
    requires ValidMaster(m)
  {
    if KindOf(m) != MasterSlave then Some(Exchange(refused, m, None, None))
    else
      match SlaveAt(u, o)
      case None => None
      case Some(s) =>
        var a := o + |s| + 1;
        if a < |u| && u[a] == ACK then Some(Exchange(refused, m, None, Some(s)))
        else if a < |u| && u[a] == NAK && SlaveAt(u, a + 1).Some? then
          var s2 := SlaveAt(u, a + 1).value;
          var a2 := a + 1 + |s2| + 1;
          if a2 < |u| && u[a2] == ACK then Some(Exchange(refused, m, Some(s), Some(s2))) else None
        else None
  }

  function Read(u: seq<byte>): Option<Exchange> {
    match MasterAt(u, 0)
    case None => None
    case Some(m) =>
      var a := |m| + 1;
      if KindOf(m) == Broadcast then Some(Exchange(None, m, None, None))
      else if a < |u| && u[a] == ACK then ReadSlave(u, a + 1, None, m)
      else if a < |u| && u[a] == NAK && MasterAt(u, a + 1).Some? then
        var m2 := MasterAt(u, a + 1).value;
        var a2 := a + 1 + |m2| + 1;
        if KindOf(m2) != Broadcast && a2 < |u| && u[a2] == ACK then ReadSlave(u, a2 + 1, Some(m), m2) else None
      else None
  }

  /** b stands in u at offset o. */
  predicate At(b: seq<byte>, u: seq<byte>, o: nat) {
    o + |b| <= |u| && u[o..o + |b|] == b
  }

  lemma AtConcat(a: seq<byte>, b: seq<byte>, u: seq<byte>, o: nat)
    ensures At(a + b, u, o) <==> At(a, u, o) && At(b, u, o + |a|)
  {
    if At(a, u, o) && At(b, u, o + |a|) {
      assert u[o..o + |a + b|] == u[o..o + |a|] + u[o + |a|..o + |a| + |b|];
    }
    if At(a + b, u, o) {
      var w := u[o..o + |a + b|];
      assert u[o..o + |a|] == w[..|a|];
      assert u[o + |a|..o + |a| + |b|] == w[|a|..];
    }
  }

  lemma AtByte(b: byte, u: seq<byte>, o: nat)
    ensures At([b], u, o) <==> o < |u| && u[o] == b
  {
  }

  lemma MasterAtExact(u: seq<byte>, o: nat, m: seq<byte>)
    ensures MasterAt(u, o) == Some(m) <==> ValidMaster(m) && At(Part(m), u, o)
  {
    hide LogicalCrc, IsMaster;
    AtConcat(m, [LogicalCrc(m)], u, o);
    AtByte(LogicalCrc(m), u, o + |m|);
    if ValidMaster(m) && At(m, u, o) {
      assert m[4] == u[o + 4];
    }
  }

  lemma SlaveAtExact(u: seq<byte>, o: nat, s: seq<byte>)
    ensures SlaveAt(u, o) == Some(s) <==> ValidSlave(s) && At(Part(s), u, o)
  {
    hide LogicalCrc;
    AtConcat(s, [LogicalCrc(s)], u, o);
    AtByte(LogicalCrc(s), u, o + |s|);
    if ValidSlave(s) && At(s, u, o) {
      assert s[0] == u[o];
    }
  }

  /** Where a refused attempt and an acknowledged part stand. */
  lemma AtRefused(refused: Option<seq<byte>>, rest: seq<byte>, u: seq<byte>, o: nat)
    ensures At(Refused(refused) + rest, u, o) <==>
            if refused.None? then At(rest, u, o)
            else
              var a := o + |Part(refused.value)|;
              At(Part(refused.value), u, o) && a < |u| && u[a] == NAK && At(rest, u, a + 1)
  {
    hide Part, At;
    if refused.Some? {
      AtConcat(Part(refused.value) + [NAK], rest, u, o);
      AtConcat(Part(refused.value), [NAK], u, o);
      AtByte(NAK, u, o + |Part(refused.value)|);
    } else {
      assert Refused(refused) + rest == rest;
    }
  }

  lemma ReadSlaveExact(u: seq<byte>, o: nat, refused: Option<seq<byte>>, m: seq<byte>, e: Exchange)
    requires ValidMaster(m) && e.refusedMaster == refused && e.master == m && WellFormed(e.(refusedMaster := None))
    requires o <= |u|
    ensures ReadSlave(u, o, refused, m) == Some(e) <==> At(SlaveBytes(e), u, o)
  {
    hide Part, At, SlaveAt, ValidMaster, ValidSlave, KindOf;
    if e.slave.None? {
      assert At([], u, o) by { AtEmpty(u, o); }
      assert e == Exchange(refused, m, None, None);
    } else {
      var s := e.slave.value;
      AtRefused(e.refusedSlave, Part(s) + [ACK], u, o);
      var first := if e.refusedSlave.Some? then e.refusedSlave.value else s;
      SlaveAtExact(u, o, first);
      PartLength(first);
      PartLength(s);
      var at := if e.refusedSlave.Some? then o + |first| + 2 else o;
      AtConcat(Part(s), [ACK], u, at);
      AtByte(ACK, u, at + |Part(s)|);
      SlaveAtExact(u, at, s);
    }
  }

  lemma AtEmpty(u: seq<byte>, o: nat)
    requires o <= |u|
    ensures At([], u, o)
  {
  }

  lemma PartLength(b: seq<byte>)
    ensures |Part(b)| == |b| + 1
  {
  }

  lemma ReadSlaveWellFormed(u: seq<byte>, o: nat, refused: Option<seq<byte>>, m: seq<byte>)
    requires ValidMaster(m) && o <= |u| && ReadSlave(u, o, refused, m).Some?
    ensures var e := ReadSlave(u, o, refused, m).value;
            e.refusedMaster == refused && e.master == m && WellFormed(e.(refusedMaster := None))
  {
    hide LogicalCrc, ValidMaster, KindOf;
  }

  lemma AtPrefix(b: seq<byte>, u: seq<byte>)
    ensures At(b, u, 0) <==> b <= u
  {
  }

  /** Where the master bytes of an exchange stand. */
  lemma AtMaster(e: Exchange, u: seq<byte>)
    requires WellFormed(e)
    ensures At(Logical(e), u, 0) <==>
            var o := if e.refusedMaster.Some? then |e.refusedMaster.value| + 2 else 0;
            && (e.refusedMaster.Some? ==>
                  At(Part(e.refusedMaster.value), u, 0) && o - 1 < |u| && u[o - 1] == NAK)
            && At(Part(e.master), u, o)
            && if KindOf(e.master) == Broadcast then true
               else o + |e.master| + 1 < |u| && u[o + |e.master| + 1] == ACK && At(SlaveBytes(e), u, o + |e.master| + 2)
  {
    hide Part, At, ValidMaster, ValidSlave, KindOf, SlaveBytes;
    var m := e.master;
    var tail := if KindOf(m) == Broadcast then [] else [ACK];
    var o := if e.refusedMaster.Some? then |e.refusedMaster.value| + 2 else 0;
    AtConcat(MasterBytes(e), SlaveBytes(e), u, 0);
    AtRefused(e.refusedMaster, Part(m) + tail, u, 0);
    AtConcat(Part(m), tail, u, o);
    PartLength(m);
    if e.refusedMaster.Some? {
      PartLength(e.refusedMaster.value);
    }
    if KindOf(m) == Broadcast {
      assert SlaveBytes(e) == [] by { BroadcastHasNoSlave(e); }
      if At(Part(m), u, o) {
        AtBound(Part(m), u, o);
        AtEmpty(u, o + |m| + 1);
      }
    } else {
      AtByte(ACK, u, o + |m| + 1);
    }
  }

  lemma AtBound(b: seq<byte>, u: seq<byte>, o: nat)
    requires At(b, u, o)
    ensures o + |b| <= |u|
  {
  }

  lemma BroadcastHasNoSlave(e: Exchange)
    requires WellFormed(e) && KindOf(e.master) == Broadcast
    ensures SlaveBytes(e) == []
  {
  }

  /** The reader finds an exchange exactly when its bytes are a prefix of the input. */
  lemma ReadExact(u: seq<byte>, e: Exchange)
    ensures Read(u) == Some(e) <==> WellFormed(e) && Logical(e) <= u
  {
    if Read(u) == Some(e) {
      ReadSound(u, e);
    }
    if WellFormed(e) && Logical(e) <= u {
      ReadComplete(u, e);
    }
  }

  lemma ReadComplete(u: seq<byte>, e: Exchange)
    requires WellFormed(e) && Logical(e) <= u
    ensures Read(u) == Some(e)
  {
    hide Part, At, MasterAt, ReadSlave, ValidMaster, ValidSlave, KindOf, SlaveBytes, Logical;
    AtPrefix(Logical(e), u);
    AtMaster(e, u);
    var o := if e.refusedMaster.Some? then |e.refusedMaster.value| + 2 else 0;
    if e.refusedMaster.Some? {
      MasterAtExact(u, 0, e.refusedMaster.value);
    }
    MasterAtExact(u, o, e.master);
    if KindOf(e.master) != Broadcast {
      ReadSlaveExact(u, o + |e.master| + 2, e.refusedMaster, e.master, e);
    }
    if KindOf(e.master) == Broadcast {
      assert e == Exchange(None, e.master, None, None) by { BroadcastShape(e); }
    }
  }

  lemma BroadcastShape(e: Exchange)
    requires WellFormed(e) && KindOf(e.master) == Broadcast
    ensures e == Exchange(None, e.master, None, None)
  {
  }

  lemma ReadSound(u: seq<byte>, e: Exchange)
    requires Read(u) == Some(e)
    ensures WellFormed(e) && Logical(e) <= u
  {
    hide Part, At, MasterAt, ReadSlave, SlaveBytes, Logical, LogicalCrc, TypeOf;
    var m := MasterAt(u, 0).value;
    MasterAtExact(u, 0, m);
    var a := |m| + 1;
    if KindOf(m) == Broadcast {
    } else if u[a] == ACK {
      ReadSlaveWellFormed(u, a + 1, None, m);
      ReadSlaveExact(u, a + 1, None, m, e);
    } else {
      var m2 := MasterAt(u, a + 1).value;
      MasterAtExact(u, a + 1, m2);
      var a2 := a + 1 + |m2| + 1;
      ReadSlaveWellFormed(u, a2 + 1, Some(m), m2);
      ReadSlaveExact(u, a2 + 1, Some(m), m2, e);
    }
    AtMaster(e, u);
    AtPrefix(Logical(e), u);
  }

  // ---------- The parser object ----------

  /** The bytes assignSlice copies: cut off at the end of the source when it is too short. */
  function Slice(u: seq<byte>, index: nat, len: nat): seq<byte> {
    if index >= |u| then []
    else if len == 0 || index + len > |u| then u[index..]
    else u[index..index + len]
  }

  /** The second length test leaves out the offset, as the source does. */
  function CheckMasterSequence(u: seq<byte>, offset: nat): SequenceState {
    if |u| < offset + 5 then ErrTooShort
    else if !IsMaster(u[offset]) then ErrSource
    else if !IsTarget(u[offset + 1]) then ErrTarget
    else if u[offset + 4] > MAX_DATA_BYTES then ErrDataByte
    else if |u| < 5 + u[offset + 4] + 1 then ErrTooShort
    else SeqOk
  }

  function CheckSlaveSequence(u: seq<byte>, offset: nat): SequenceState {
    if |u| < offset + 1 then ErrTooShort
    else if u[offset] > MAX_DATA_BYTES then ErrDataByte
    else if |u| < offset + 1 + u[offset] + 1 then ErrTooShort
    else SeqOk
  }

  /** What one successful or failed reading of a master part means at an offset. */
  ghost predicate MasterRead(u: seq<byte>, offset: nat, before: Telegram, after: Telegram, ok: bool, next: nat) {
    && after.(kind := before.kind, master := before.master, masterCrc := before.masterCrc,
              masterAck := before.masterAck, masterState := before.masterState) == before
    && (!ok ==> after.masterState != SeqOk)
    && match MasterAt(u, offset) {
         case None => ok ==> offset > 0 && after.masterAck == before.masterAck && after.kind == Broadcast
         case Some(m) =>
           var a := offset + |m| + 1;
           if KindOf(m) == Broadcast then
             ok && next == a && HoldsMaster(after) && after.master == m && after.masterAck == before.masterAck
           else
             && (ok <==> a < |u| && (u[a] == ACK || u[a] == NAK))
             && (ok ==> next == a + 1 && after.masterAck == u[a] && HoldsMaster(after) && after.master == m)
             && (!ok ==> after.masterState == if a < |u| then ErrAckInvalid else ErrAckMissing)
       }
  }

  ghost predicate SlaveRead(u: seq<byte>, offset: nat, before: Telegram, after: Telegram, ok: bool, next: nat) {
    && after.(slave := before.slave, slaveCrc := before.slaveCrc,
              slaveAck := before.slaveAck, slaveState := before.slaveState) == before
    && (!ok ==> after.slaveState != SeqOk)
    && match SlaveAt(u, offset) {
         case None => !ok
         case Some(s) =>
           var a := offset + |s| + 1;
           && (ok <==> a < |u| && (u[a] == ACK || u[a] == NAK))
           && (ok ==> next == a + 1 && after.slaveAck == u[a] && HoldsSlave(after) && after.slave == s)
           && (!ok ==> after.slaveState == if a < |u| then ErrAckInvalid else ErrAckMissing)
       }
  }

  class TelegramParser {
    var kind: TelegramType
    var master: seq<byte>
    var masterCrc: byte
    var masterAck: byte
    var masterState: SequenceState
    var slave: seq<byte>
    var slaveCrc: byte
    var slaveAck: byte
    var slaveState: SequenceState

    function State(): Telegram
      reads this
    {
      Telegram(kind, master, masterCrc, masterAck, masterState, slave, slaveCrc, slaveAck, slaveState)
    }

    constructor ()
      ensures State() == CLEARED
    {
      kind, master, masterCrc, masterAck, masterState := Undefined, [], 0, 0, SeqEmpty;
      slave, slaveCrc, slaveAck, slaveState := [], 0, 0, SeqEmpty;
    }

    method Clear()
      modifies this
      ensures State() == CLEARED
    {
      kind, master, masterCrc, masterAck, masterState := Undefined, [], 0, 0, SeqEmpty;
      slave, slaveCrc, slaveAck, slaveState := [], 0, 0, SeqEmpty;
    }

    method SetMaster(s: seq<byte>)
      modifies this
      ensures State() == CreateMaster(old(State()), s)
    {
      masterState := SeqOk;
      if |s| < 5 {
        masterState := ErrTooShort;
        return;
      }
      if !IsMaster(s[0]) {
        masterState := ErrSource;
        return;
      }
      if !IsTarget(s[1]) {
        masterState := ErrTarget;
        return;
      }
      if s[4] > MAX_DATA_BYTES {
        masterState := ErrDataByte;
        return;
      }
      if NeedsEscape(s[2]) || NeedsEscape(s[3]) {
        masterState := ErrDataByte;
        return;
      }
      if |s| < 5 + s[4] {
        masterState := ErrTooShort;
        return;
      }
      kind := TypeOf(s[1]);
      var n := 5 + s[4];
      if |s| == n {
        master := s;
        masterCrc := CalculateCrc(s, false);
      } else if |s| == n + 1 {
        master := s[..n];
        masterCrc := s[n];
        var crc := CalculateCrc(master, false);
        if crc != masterCrc {
          masterState := ErrCrc;
        }
      } else {
        masterState := ErrTooLong;
      }
    }

    method SetSlave(s: seq<byte>)
      modifies this
      ensures State() == CreateSlave(old(State()), s)
    {
      slaveState := SeqOk;
      if |s| < 2 {
        slaveState := ErrTooShort;
        return;
      }
      if s[0] > MAX_DATA_BYTES {
        slaveState := ErrDataByte;
        return;
      }
      if |s| < 1 + s[0] {
        slaveState := ErrTooShort;
        return;
      }
      var n := 1 + s[0];
      if |s| == n {
        slave := s;
        slaveCrc := CalculateCrc(s, false);
      } else if |s| == n + 1 {
        slave := s[..n];
        slaveCrc := s[n];
        var crc := CalculateCrc(slave, false);
        if crc != slaveCrc {
          slaveState := ErrCrc;
        }
      } else {
        slaveState := ErrTooLong;
      }
    }

    method ParseMasterPart(u: seq<byte>, offset: nat) returns (ok: bool, next: nat)
      modifies this
      ensures MasterRead(u, offset, old(State()), State(), ok, next)
    {
      hide LogicalCrc, MasterAt, ValidMaster, CreateMaster, IsMaster, IsTarget, KindOf, Slice;
      next := offset;
      masterState := CheckMasterSequence(u, offset);
      if masterState != SeqOk {
        NoMasterAt(u, offset);
        return false, next;
      }
      var len := 5 + u[offset + 4] + 1;
      ghost var before := State();
      var part := Slice(u, offset, len);
      master := part;
      SetMaster(part);
      SliceIsMaster(u, offset, before.(master := part), State());
      next := offset + len;
      if masterState != SeqOk {
        return false, next;
      }
      if kind != Broadcast {
        if |u| <= next {
          masterState := ErrAckMissing;
          return false, next;
        }
        masterAck := u[next];
        next := next + 1;
        if masterAck != ACK && masterAck != NAK {
          masterState := ErrAckInvalid;
          return false, next;
        }
      }
      ok := true;
    }

    method ParseSlavePart(u: seq<byte>, offset: nat) returns (ok: bool, next: nat)
      modifies this
      ensures SlaveRead(u, offset, old(State()), State(), ok, next)
    {
      hide LogicalCrc, SlaveAt, ValidSlave, CreateSlave, Slice;
      next := offset;
      slaveState := CheckSlaveSequence(u, offset);
      if slaveState != SeqOk {
        NoSlaveAt(u, offset);
        return false, next;
      }
      var len := 1 + u[offset] + 1;
      ghost var before := State();
      var part := Slice(u, offset, len);
      slave := part;
      SetSlave(part);
      SliceIsSlave(u, offset, before.(slave := part), State());
      next := offset + len;
      if slaveState != SeqOk {
        return false, next;
      }
      if |u| <= next {
        slaveState := ErrAckMissing;
        return false, next;
      }
      slaveAck := u[next];
      next := next + 1;
      if slaveAck != ACK && slaveAck != NAK {
        slaveState := ErrAckInvalid;
        return false, next;
      }
      ok := true;
    }

    predicate IsValid()
      reads this
    {
      masterState == SeqOk && (kind == MasterSlave ==> slaveState == SeqOk)
    }

    /** parse decides the grammar: it is valid exactly on the inputs that start with an exchange. */
    method Parse(sequence: Framing.Sequence)
      requires sequence.Valid()
      modifies this, sequence, sequence.data
      ensures sequence.Valid() && sequence.data == old(sequence.data)
      ensures sequence.Contents() == old(sequence.Logical()) && !sequence.extended
      ensures IsValid() <==> exists e :: WellFormed(e) && Logical(e) <= sequence.Contents()
      ensures forall e :: WellFormed(e) && Logical(e) <= sequence.Contents() ==> Reports(e)
    {
      Clear();
      sequence.Reduce();
      var u := sequence.data[..sequence.size];
      ParseLogical(u);
      ReadIsGrammar(u);
    }

    /** The fields show the accepted parts of the exchange. */
    ghost predicate Reports(e: Exchange)
      reads this
    {
      && HoldsMaster(State()) && master == e.master
      && (e.slave.Some? ==> HoldsSlave(State()) && slave == e.slave.value)
      && (e.slave.None? ==> slave == [])
    }

    method ParseLogical(u: seq<byte>)
      requires State() == CLEARED
      modifies this
      ensures IsValid() <==> Read(u).Some?
      ensures Read(u).Some? ==> Reports(Read(u).value)
    {
      hide MasterAt, SlaveAt, ValidMaster, ValidSlave, KindOf, LogicalCrc;
      var ok, cursor := ParseMasterPart(u, 0);
      if !ok {
        return;
      }
      if kind != Broadcast && masterAck == NAK {
        ok, cursor := ParseMasterPart(u, cursor);
        if !ok {
          return;
        }
        if masterAck == NAK {
          masterState := ErrAckNegative;
        }
      }
      if masterState != SeqOk {
        return;
      }
      if kind == MasterSlave {
        ok, cursor := ParseSlavePart(u, cursor);
        if !ok {
          return;
        }
        if slaveAck == NAK {
          ok, cursor := ParseSlavePart(u, cursor);
          if !ok {
            return;
          }
          if slaveAck == NAK {
            slaveState := ErrAckNegative;
          }
        }
      }
    }
  }

  lemma ReadIsGrammar(u: seq<byte>)
    ensures Read(u).Some? <==> exists e :: WellFormed(e) && Logical(e) <= u
    ensures forall e :: WellFormed(e) && Logical(e) <= u ==> Read(u) == Some(e)
  {
    hide Read, WellFormed, Logical;
    forall e ensures Read(u) == Some(e) <==> WellFormed(e) && Logical(e) <= u {
      ReadExact(u, e);
    }
    if Read(u).Some? {
      var e := Read(u).value;
      assert Read(u) == Some(e);
    }
  }

  lemma NoMasterAt(u: seq<byte>, offset: nat)
    requires CheckMasterSequence(u, offset) != SeqOk
    ensures MasterAt(u, offset) == None
  {
    hide LogicalCrc, IsMaster, IsTarget;
  }

  lemma SliceIsMaster(u: seq<byte>, offset: nat, before: Telegram, after: Telegram)
    requires CheckMasterSequence(u, offset) == SeqOk
    requires after == CreateMaster(before, Slice(u, offset, 5 + u[offset + 4] + 1))
    ensures match MasterAt(u, offset)
            case Some(m) => HoldsMaster(after) && after.master == m && |m| == 5 + u[offset + 4]
            case None => after.masterState == SeqOk ==> offset > 0 && |u| < offset + 5 + u[offset + 4] + 1
    ensures after.(kind := before.kind, master := before.master, masterCrc := before.masterCrc,
                   masterState := before.masterState) == before
  {
    hide LogicalCrc, IsMaster;
    var n := 5 + u[offset + 4];
    if offset + n + 1 <= |u| {
      var part := u[offset..offset + n + 1];
      assert part[..n] == u[offset..offset + n];
    }
  }

  lemma NoSlaveAt(u: seq<byte>, offset: nat)
    requires CheckSlaveSequence(u, offset) != SeqOk
    ensures SlaveAt(u, offset) == None
  {
    hide LogicalCrc;
  }

  lemma SliceIsSlave(u: seq<byte>, offset: nat, before: Telegram, after: Telegram)
    requires CheckSlaveSequence(u, offset) == SeqOk
    requires after == CreateSlave(before, Slice(u, offset, 1 + u[offset] + 1))
    ensures match SlaveAt(u, offset)
            case Some(s) => HoldsSlave(after) && after.slave == s && |s| == 1 + u[offset]
            case None => after.slaveState != SeqOk
    ensures after.(slave := before.slave, slaveCrc := before.slaveCrc, slaveState := before.slaveState) == before
  {
    hide LogicalCrc;
    var n := 1 + u[offset];
    var part := u[offset..offset + n + 1];
    assert part[..n] == u[offset..offset + n];
  }

  // ---------- Print and parse undo each other ----------

  /** The wire bytes of an exchange; acknowledgements never need an escape. */
  function Wire(e: Exchange): seq<byte> {
    Stuff(Logical(e))
  }

  lemma WireRoundTrip(e: Exchange)
    requires WellFormed(e)
    ensures Read(Unstuff(Wire(e))) == Some(e) && Stuffed(Wire(e)) && SYN !in Wire(e)
  {
    hide Stuff, Unstuff, Stuffed, Read, WellFormed, Logical;
    RoundTripExact(Logical(e), Wire(e));
    StuffIsStuffed(Logical(e));
    ReadExact(Unstuff(Wire(e)), e);
  }

  /** Conversely, printing what was read from well-formed stuffing gives back the bytes it was read from. */
  lemma ReadThenWire(w: seq<byte>, e: Exchange)
    requires Stuffed(w) && Read(Unstuff(w)) == Some(e)
    ensures Wire(e) <= w
  {
    hide Stuff, Unstuff, Stuffed, Read, WellFormed, Logical;
    var u := Unstuff(w);
    ReadExact(u, e);
    StuffConcat(Logical(e), u[|Logical(e)|..]);
    assert u == Logical(e) + u[|Logical(e)|..];
    RoundTripExact([], w);
  }

  /** Framing the parts one by one and acknowledging them raw is the wire form of the whole exchange. */
  lemma FramesAreWire(m: seq<byte>, s: Option<seq<byte>>)
    requires WellFormed(Exchange(None, m, None, s))
    ensures Wire(Exchange(None, m, None, s)) ==
            Stuff(Part(m)) + (if KindOf(m) == Broadcast then [] else [ACK]) +
            (if s.Some? then Stuff(Part(s.value)) + [ACK] else [])
  {
    assert Stuff([ACK]) == [ACK] by {
      assert Stuff([]) == [];
    }
    hide Stuff, Part, ValidMaster, ValidSlave, KindOf;
    var tail := if KindOf(m) == Broadcast then [] else [ACK];
    var e := Exchange(None, m, None, s);
    assert MasterBytes(e) == Part(m) + tail;
    StuffConcat(MasterBytes(e), SlaveBytes(e));
    StuffConcat(Part(m), tail);
    StuffEmpty();
    if s.Some? {
      assert SlaveBytes(e) == Part(s.value) + [ACK];
      StuffConcat(Part(s.value), [ACK]);
    }
  }

  lemma StuffEmpty()
    ensures Stuff([]) == []
  {
  }

  method FrameExchange(source: byte, payload: seq<byte>, slave: Option<seq<byte>>) returns (wire: seq<byte>)
    requires WellFormed(Exchange(None, [source] + payload, None, slave))
    ensures wire == Wire(Exchange(None, [source] + payload, None, slave))
  {
    FramesAreWire([source] + payload, slave);
    hide Stuff, WellFormed, KindOf, LogicalCrc, Logical;
    var frame := Framing.FrameMaster(source, payload);
    wire := frame.data[..frame.size];
    if KindOf([source] + payload) != Broadcast {
      wire := wire + [ACK];
    }
    if slave.Some? {
      var reply := Framing.FrameSlave(slave.value);
      wire := wire + (reply.data[..reply.size] + [ACK]);
    }
  }

  /** frameMaster, frameSlave, the acknowledgements and parse, end to end. */
  method FrameAndParse(source: byte, payload: seq<byte>, slave: Option<seq<byte>>) returns (t: TelegramParser)
    requires WellFormed(Exchange(None, [source] + payload, None, slave))
    ensures t.IsValid() && t.kind == KindOf([source] + payload)
    ensures t.master == [source] + payload && t.masterCrc == LogicalCrc([source] + payload)
    ensures slave.Some? ==> t.slave == slave.value && t.slaveCrc == LogicalCrc(slave.value)
    ensures slave.None? ==> t.slave == []
  {
    hide Stuff, Unstuff, Logical, WellFormed, ValidMaster, ValidSlave, KindOf, LogicalCrc;
    ghost var e := Exchange(None, [source] + payload, None, slave);
    var wire := FrameExchange(source, payload, slave);
    WireRoundTrip(e);
    var sequence := new Framing.Sequence();
    sequence.Append(wire);
    sequence.extended := true;
    assert sequence.Contents() == wire;
    ReadExact(Unstuff(wire), e);
    t := new TelegramParser();
    t.Parse(sequence);
    assert t.Reports(e);
  }
}
