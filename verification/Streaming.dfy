/** Byte-by-byte observation of a third-party exchange agrees with parsing it as a whole. */
module Streaming {
  import opened Bytes
  import opened Stuffing
  import opened Crc
  import opened Telegram
  import opened Parser
  import opened Handler
  import opened HandlerInvariant
  import opened HandlerSteps
  import opened Reception
  import opened Feed
  import Request

  predicate Foreign(n: Node, m: seq<byte>) {
    |m| >= 2 && m[1] != n.source && m[1] != n.target
  }

  // ---------- Parts ----------

  lemma {:induction false} FeedMaster(n: Node, m: seq<byte>, k: nat, ins: seq<Input>)
    requires ValidMaster(m) && Waiting(n) && k < |WirePart(m)| && Carries(ins, WirePart(m)[k..])
    ensures ins != []
    ensures Run(MasterMid(n, m, k), ins) ==
            OutcomeOf(MasterAccepted(Start(MasterDone(n, m)), ins[|ins| - 1].reply))
    decreases |ins|
  {
    hide Step, WirePart, MasterMid, MasterDone, MasterAccepted, ValidMaster, Carries;
    var w := WirePart(m);
    CarriesNext(ins, w, k);
    CarriesLength(ins, w[k..]);
    assert ins == [ins[0]] + ins[1..];
    if k + 1 < |w| {
      StepMasterMid(n, m, k, ins[0]);
      FeedMaster(n, m, k + 1, ins[1..]);
    } else {
      StepMasterLast(n, m, ins[0]);
      RunOne(MasterMid(n, m, k), ins[0]);
      assert ins == [ins[0]];
    }
  }

  lemma ForeignAccepted(n: Node, m: seq<byte>, reply: Buffer)
    requires ValidMaster(m) && Waiting(n) && Foreign(n, m)
    ensures MasterAccepted(Start(MasterDone(n, m)), reply) ==
            if KindOf(m) == Broadcast then
              Effect(n.(passive := IDLE_PASSIVE), None, [Delivered(PassiveMessage, Broadcast, m, [])])
            else Start(MasterDone(n, m).(state := PassiveReceiveMasterAcknowledge))
    ensures DoneTel(MasterDone(n, m).passive.tel, m)
  {
    hide WirePart, MasterDbx, CreateMaster, LogicalCrc, KindOf;
    CreateMasterExact(CLEARED, Part(m));
    assert Part(m)[1] == m[1];
  }

  /** A whole foreign master part, stuffed. */
  lemma RunMasterPart(n: Node, m: seq<byte>, ins: seq<Input>)
    requires ValidMaster(m) && Waiting(n) && Foreign(n, m) && Carries(ins, WirePart(m))
    ensures Run(n, ins) ==
            if KindOf(m) == Broadcast then
              Outcome(n.(passive := IDLE_PASSIVE), [], [Delivered(PassiveMessage, Broadcast, m, [])])
            else Outcome(MasterDone(n, m).(state := PassiveReceiveMasterAcknowledge), [], [])
    ensures DoneTel(MasterDone(n, m).passive.tel, m)
  {
    hide Step, WirePart, MasterMid, MasterDone, MasterAccepted, ValidMaster, Waiting, KindOf, Foreign;
    MasterHeader(m);
    MasterMidStart(n, m);
    assert WirePart(m)[0..] == WirePart(m);
    FeedMaster(n, m, 0, ins);
    ForeignAccepted(n, m, ins[|ins| - 1].reply);
  }

  lemma {:induction false} FeedSlave(n: Node, s: seq<byte>, k: nat, ins: seq<Input>)
    requires ValidSlave(s) && AwaitsSlave(n) && k < |WirePart(s)| && Carries(ins, WirePart(s)[k..])
    ensures Run(SlaveMid(n, s, k), ins) == Outcome(SlaveDone(n, s), [], [])
    decreases |ins|
  {
    hide Step, WirePart, SlaveMid, SlaveDone, ValidSlave, Carries;
    var w := WirePart(s);
    CarriesNext(ins, w, k);
    CarriesLength(ins, w[k..]);
    assert ins == [ins[0]] + ins[1..];
    if k + 1 < |w| {
      StepSlaveMid(n, s, k, ins[0]);
      FeedSlave(n, s, k + 1, ins[1..]);
    } else {
      StepSlaveLast(n, s, ins[0]);
      RunOne(SlaveMid(n, s, k), ins[0]);
      assert ins == [ins[0]];
    }
  }

  /** A whole slave part, stuffed. */
  lemma RunSlavePart(n: Node, s: seq<byte>, ins: seq<Input>)
    requires ValidSlave(s) && AwaitsSlave(n) && Carries(ins, WirePart(s))
    ensures Run(n, ins) == Outcome(SlaveDone(n, s), [], [])
    ensures SlaveTel(n.passive.tel, SlaveDone(n, s).passive.tel, s)
  {
    hide Step, WirePart, ValidSlave, CreateSlave, Part;
    SlaveHeader(s);
    assert WirePart(s)[0..] == WirePart(s) && WirePart(s)[..0] == [];
    FeedSlave(n, s, 0, ins);
    SlaveAccepted(n.passive.tel, s);
  }

  // ---------- Parts with their acknowledgements ----------

  /** After a refused part the node waits for the repetition, unless it still believes it is in one. */
  lemma RunRefusedMaster(n: Node, m: seq<byte>, ins: seq<Input>)
    requires ValidMaster(m) && Waiting(n) && Foreign(n, m) && KindOf(m) != Broadcast
    requires Carries(ins, WirePart(m) + [NAK])
    ensures Run(n, ins) ==
            if n.passive.masterRepeated then
              Outcome(n.(passive := IDLE_PASSIVE), [], [Failed(ErrorPassiveMasterAck, SeqOk, Part(m), [])])
            else Outcome(n.(passive := n.passive.(masterRepeated := true)), [], [])
  {
    hide WirePart, MasterDone, ValidMaster, KindOf, Foreign, OnPassiveReceiveMaster, LogicalCrc;
    CarriesSplit(ins, WirePart(m), [NAK]);
    RunMasterPart(n, m, ins[..|WirePart(m)|]);
    var last := ins[|WirePart(m)|..];
    assert last == [last[0]];
    RunConcat(n, ins[..|WirePart(m)|], last);
    var q := MasterDone(n, m).(state := PassiveReceiveMasterAcknowledge);
    DoneKeeps(n, m);
    RunOne(q, last[0]);
  }

  lemma DoneKeeps(n: Node, m: seq<byte>)
    requires ValidMaster(m)
    ensures var q := MasterDone(n, m);
            q.passive.master.bytes == Part(m) &&
            q == n.(passive := n.passive.(tel := q.passive.tel, master := q.passive.master, masterDbx := q.passive.masterDbx))
  {
  }

  /** After an acknowledged part the telegram is delivered or its slave part awaited. */
  lemma RunAcknowledgedMaster(n: Node, m: seq<byte>, ins: seq<Input>)
    requires ValidMaster(m) && Waiting(n) && Foreign(n, m) && KindOf(m) != Broadcast
    requires Carries(ins, WirePart(m) + [ACK])
    ensures var q := MasterDone(n, m);
            Run(n, ins) ==
            if KindOf(m) == MasterMaster then
              Outcome(n.(passive := IDLE_PASSIVE), [], [Delivered(PassiveMessage, MasterMaster, m, [])])
            else Outcome(q.(state := PassiveReceiveSlave), [], [])
    ensures DoneTel(MasterDone(n, m).passive.tel, m) && AwaitsSlave(MasterDone(n, m).(state := PassiveReceiveSlave))
  {
    hide WirePart, MasterDone, ValidMaster, KindOf, Foreign, OnPassiveReceiveMaster, LogicalCrc;
    CarriesSplit(ins, WirePart(m), [ACK]);
    RunMasterPart(n, m, ins[..|WirePart(m)|]);
    var last := ins[|WirePart(m)|..];
    assert last == [last[0]];
    RunConcat(n, ins[..|WirePart(m)|], last);
    var q := MasterDone(n, m).(state := PassiveReceiveMasterAcknowledge);
    DoneKeeps(n, m);
    RunOne(q, last[0]);
    assert q.passive.tel.kind == KindOf(m);
  }

  lemma RunRefusedSlave(n: Node, s: seq<byte>, ins: seq<Input>)
    requires ValidSlave(s) && AwaitsSlave(n) && !n.passive.slaveRepeated && Carries(ins, WirePart(s) + [NAK])
    ensures var q := SlaveDone(n, s);
            Run(n, ins) == Outcome(n.(passive := n.passive.(tel := q.passive.tel, slaveRepeated := true)), [], [])
    ensures SlaveTel(n.passive.tel, SlaveDone(n, s).passive.tel, s)
  {
    hide WirePart, ValidSlave, CreateSlave, OnPassiveReceiveMaster, LogicalCrc, Part, SlaveDbx;
    CarriesSplit(ins, WirePart(s), [NAK]);
    RunSlavePart(n, s, ins[..|WirePart(s)|]);
    var last := ins[|WirePart(s)|..];
    assert last == [last[0]];
    RunConcat(n, ins[..|WirePart(s)|], last);
    RunOne(SlaveDone(n, s), last[0]);
  }

  lemma RunAcknowledgedSlave(n: Node, s: seq<byte>, ins: seq<Input>)
    requires ValidSlave(s) && AwaitsSlave(n) && Carries(ins, WirePart(s) + [ACK])
    ensures Run(n, ins) ==
            Outcome(n.(state := PassiveReceiveMaster, passive := IDLE_PASSIVE), [],
                    [Delivered(PassiveMessage, MasterSlave, n.passive.tel.master, s)])
  {
    hide WirePart, ValidSlave, CreateSlave, OnPassiveReceiveMaster, LogicalCrc, Part, SlaveDbx;
    CarriesSplit(ins, WirePart(s), [ACK]);
    RunSlavePart(n, s, ins[..|WirePart(s)|]);
    var last := ins[|WirePart(s)|..];
    assert last == [last[0]];
    RunConcat(n, ins[..|WirePart(s)|], last);
    RunOne(SlaveDone(n, s), last[0]);
  }

  // ---------- The whole exchange ----------

  function RefusedWire(part: Option<seq<byte>>): seq<byte> {
    if part.Some? then WirePart(part.value) + [NAK] else []
  }

  function MasterTail(m: seq<byte>): seq<byte> {
    if KindOf(m) == Broadcast then [] else [ACK]
  }

  /**
   * What a refused attempt costs a node whose repeat flag survived from an attempt that was never
   * repeated: it takes the attempt for a failed repetition.
   */
  function StaleReport(n: Node, refused: Option<seq<byte>>): seq<Output> {
    if n.passive.masterRepeated && refused.Some? then
      [Failed(ErrorPassiveMasterAck, SeqOk, Part(refused.value), [])]
    else []
  }

  lemma RunOptionalRefusal(n: Node, refused: Option<seq<byte>>, ins: seq<Input>) returns (q: Node)
    requires Waiting(n) && Carries(ins, RefusedWire(refused))
    requires refused.Some? ==> ValidMaster(refused.value) && Foreign(n, refused.value) && KindOf(refused.value) != Broadcast
    ensures Run(n, ins) == Outcome(q, [], StaleReport(n, refused))
    ensures Waiting(q) && q == n.(passive := q.passive) && q.passive.(masterRepeated := false) == IDLE_PASSIVE
  {
    hide WirePart, ValidMaster, KindOf, Step;
    q := n;
    if refused.Some? {
      RunRefusedMaster(n, refused.value, ins);
      q := if n.passive.masterRepeated then n.(passive := IDLE_PASSIVE)
           else n.(passive := n.passive.(masterRepeated := true));
    }
  }

  lemma RunMasterPhase(n: Node, e: Exchange, ins: seq<Input>) returns (q: Node)
    requires WellFormed(e) && Waiting(n) && ForeignExchange(n, e)
    requires Carries(ins, RefusedWire(e.refusedMaster) + (WirePart(e.master) + MasterTail(e.master)))
    ensures KindOf(e.master) != MasterSlave ==>
              Run(n, ins) == Outcome(n.(passive := IDLE_PASSIVE), [],
                                     StaleReport(n, e.refusedMaster) +
                                     [Delivered(PassiveMessage, KindOf(e.master), e.master, [])])
    ensures KindOf(e.master) == MasterSlave ==>
              && Run(n, ins) == Outcome(q, [], StaleReport(n, e.refusedMaster)) && AwaitsSlave(q) && !q.passive.slaveRepeated
              && q.passive.tel.master == e.master && q == n.(state := PassiveReceiveSlave, passive := q.passive)
  {
    hide WirePart, ValidMaster, ValidSlave, KindOf, Step, MasterDone, LogicalCrc, StaleReport, RefusedWire;
    var m := e.master;
    KindIsKnown(m);
    var r := RefusedWire(e.refusedMaster);
    CarriesSplit(ins, r, WirePart(m) + MasterTail(m));
    var a, b := ins[..|r|], ins[|r|..];
    var n1 := RunOptionalRefusal(n, e.refusedMaster, a);
    RunConcat(n, a, b);
    q := MasterDone(n1, m).(state := PassiveReceiveSlave);
    DoneKeeps(n1, m);
    if KindOf(m) == Broadcast {
      assert WirePart(m) + MasterTail(m) == WirePart(m);
      RunMasterPart(n1, m, b);
    } else {
      RunAcknowledgedMaster(n1, m, b);
    }
  }

  lemma RunSlavePhase(q: Node, refused: Option<seq<byte>>, s: seq<byte>, ins: seq<Input>)
    requires ValidSlave(s) && (refused.Some? ==> ValidSlave(refused.value)) && AwaitsSlave(q) && !q.passive.slaveRepeated
    requires Carries(ins, RefusedWire(refused) + (WirePart(s) + [ACK]))
    ensures Run(q, ins) ==
            Outcome(q.(state := PassiveReceiveMaster, passive := IDLE_PASSIVE), [],
                    [Delivered(PassiveMessage, MasterSlave, q.passive.tel.master, s)])
  {
    hide WirePart, ValidSlave, Step, CreateSlave, LogicalCrc, Part, SlaveDbx;
    var r := RefusedWire(refused);
    CarriesSplit(ins, r, WirePart(s) + [ACK]);
    var a, b := ins[..|r|], ins[|r|..];
    var q1 := q;
    if refused.Some? {
      RunRefusedSlave(q, refused.value, a);
      q1 := q.(passive := q.passive.(tel := SlaveDone(q, refused.value).passive.tel, slaveRepeated := true));
    }
    assert Run(q, a) == Outcome(q1, [], []);
    RunConcat(q, a, b);
    RunAcknowledgedSlave(q1, s, b);
  }

  predicate ForeignExchange(n: Node, e: Exchange) {
    Foreign(n, e.master) && (e.refusedMaster.Some? ==> Foreign(n, e.refusedMaster.value))
  }

  lemma StuffAcks()
    ensures Stuff([ACK]) == [ACK] && Stuff([NAK]) == [NAK] && Stuff([]) == []
  {
    assert Stuff([]) == [];
  }

  lemma StuffRefused(part: Option<seq<byte>>)
    ensures Stuff(Refused(part)) == RefusedWire(part)
  {
    hide Stuff, Part;
    StuffAcks();
    if part.Some? {
      StuffConcat(Part(part.value), [NAK]);
    }
  }

  /** Acknowledgements are never escaped, so the wire of an exchange is its parts stuffed one by one. */
  lemma WireIsParts(e: Exchange)
    requires WellFormed(e)
    ensures Wire(e) ==
            (RefusedWire(e.refusedMaster) + (WirePart(e.master) + MasterTail(e.master))) +
            (if e.slave.Some? then RefusedWire(e.refusedSlave) + (WirePart(e.slave.value) + [ACK]) else [])
  {
    hide Stuff, Part, ValidMaster, ValidSlave, KindOf;
    StuffAcks();
    StuffConcat(MasterBytes(e), SlaveBytes(e));
    StuffRefused(e.refusedMaster);
    StuffConcat(Refused(e.refusedMaster), Part(e.master) + MasterTail(e.master));
    StuffConcat(Part(e.master), MasterTail(e.master));
    if e.slave.Some? {
      var s := e.slave.value;
      StuffRefused(e.refusedSlave);
      StuffConcat(Refused(e.refusedSlave), Part(s) + [ACK]);
      StuffConcat(Part(s), [ACK]);
    }
  }

  /** The one telegram an exchange is worth to a node that only observes it. */
  function Observed(e: Exchange): Output {
    Delivered(PassiveMessage, KindOf(e.master), e.master, if e.slave.Some? then e.slave.value else [])
  }

  /**
   * Fed the wire bytes of any well-formed foreign exchange, with or without repetitions, a waiting node
   * delivers exactly one telegram, writes nothing and is idle again. It reports no error exactly unless
   * its repeat flag is stale and the exchange holds a refused attempt.
   */
  lemma StreamingDelivers(n: Node, e: Exchange, ins: seq<Input>)
    requires WellFormed(e) && Waiting(n) && ForeignExchange(n, e) && Carries(ins, Wire(e))
    ensures Run(n, ins) == Outcome(n.(passive := IDLE_PASSIVE), [], StaleReport(n, e.refusedMaster) + [Observed(e)])
    ensures Run(n, ins).outs == [Observed(e)] <==> !(n.passive.masterRepeated && e.refusedMaster.Some?)
  {
    hide WirePart, ValidMaster, ValidSlave, KindOf, Step, Wire, ForeignExchange;
    WireIsParts(e);
    var x := RefusedWire(e.refusedMaster) + (WirePart(e.master) + MasterTail(e.master));
    var y := if e.slave.Some? then RefusedWire(e.refusedSlave) + (WirePart(e.slave.value) + [ACK]) else [];
    hide RefusedWire, MasterTail;
    CarriesSplit(ins, x, y);
    var a, b := ins[..|x|], ins[|x|..];
    var q := RunMasterPhase(n, e, a);
    RunConcat(n, a, b);
    if e.slave.Some? {
      RunSlavePhase(q, e.refusedSlave, e.slave.value, b);
    } else {
      assert b == [];
    }
  }

  /**
   * Streaming refines batch parsing: whatever properly stuffed wire bytes parse accepts, with nothing
   * left over, a waiting node delivers as the same kind, master and slave and without an error, exactly
   * unless its repeat flag is stale and the bytes hold a refused attempt.
   */
  lemma StreamingRefinesParse(n: Node, w: seq<byte>, ins: seq<Input>)
    requires Waiting(n) && Carries(ins, w) && Stuffed(w)
    requires Read(Unstuff(w)).Some? && |Logical(Read(Unstuff(w)).value)| == |Unstuff(w)|
    requires ForeignExchange(n, Read(Unstuff(w)).value)
    ensures var e := Read(Unstuff(w)).value;
            Run(n, ins) == Outcome(n.(passive := IDLE_PASSIVE), [], [Observed(e)]) <==>
            !(n.passive.masterRepeated && e.refusedMaster.Some?)
  {
    hide Read, Unstuff, Stuffed, Stuff, WellFormed, Logical, Run, ForeignExchange, Waiting, KindOf;
    var u := Unstuff(w);
    var e := Read(u).value;
    ReadExact(u, e);
    assert Logical(e) == u;
    RoundTripExact([], w);
    StreamingDelivers(n, e, ins);
  }

  /** On every run, a listening node that has nothing buffered is waiting. */
  lemma NothingBufferedIsWaiting(n: Node)
    requires Inv(n) && n.state == PassiveReceiveMaster && n.passive.master.bytes == []
    ensures Waiting(n) && n.active.master == EMPTY && n.active.slave == EMPTY
  {
    hide IsMaster, SlaveOf, Exts, HoldsMaster;
  }

  // ---------- Where the repeat flag goes stale ----------

  /** An idle node asks for the bus on SYN if it has a message of its own. */
  function Wish(n: Node): seq<Output> {
    if n.active.message then [BusWanted] else []
  }

  lemma WaitingOnSyn(n: Node, i: Input)
    requires Waiting(n) && n.active.master == EMPTY && n.active.slave == EMPTY && i.b == SYN
    ensures Step(n, i) == Effect(n, None, Wish(n))
  {
  }

  /** An attempt refused and then given up: SYN clears nothing, and the flag stays set. */
  lemma RefusedThenSyn(n: Node, m: seq<byte>, ins: seq<Input>)
    requires ValidMaster(m) && KindOf(m) != Broadcast && Foreign(n, m) && Waiting(n) && !n.passive.masterRepeated
    requires n.active.master == EMPTY && n.active.slave == EMPTY
    requires Carries(ins, (WirePart(m) + [NAK]) + [SYN])
    ensures var q := n.(passive := n.passive.(masterRepeated := true));
            Waiting(q) && Run(n, ins) == Outcome(q, [], Wish(n))
  {
    hide WirePart, ValidMaster, KindOf, Foreign, Step;
    var w := WirePart(m) + [NAK];
    CarriesSplit(ins, w, [SYN]);
    var last := ins[|w|..];
    assert last == [last[0]];
    RunConcat(n, ins[..|w|], last);
    RunRefusedMaster(n, m, ins[..|w|]);
    var q := n.(passive := n.passive.(masterRepeated := true));
    RunOne(q, last[0]);
    WaitingOnSyn(q, last[0]);
  }

  /**
   * From power-up: after an attempt that was refused and given up, the next exchange with a refused
   * attempt is reported as an error before it is delivered.
   */
  lemma StaleRepeatReported(source: byte, m: seq<byte>, e: Exchange, first: seq<Input>, second: seq<Input>)
    requires ValidMaster(m) && KindOf(m) != Broadcast && Foreign(InitialNode(source), m)
    requires WellFormed(e) && e.refusedMaster.Some? && ForeignExchange(InitialNode(source), e)
    requires Carries(first, (WirePart(m) + [NAK]) + [SYN]) && Carries(second, Wire(e))
    ensures Run(InitialNode(source), first + second).outs ==
            [Failed(ErrorPassiveMasterAck, SeqOk, Part(e.refusedMaster.value), []), Observed(e)]
  {
    hide WirePart, ValidMaster, KindOf, Step, Wire, WellFormed, Part, Observed, SlaveOf, IsMaster, Run;
    var n := InitialNode(source);
    RefusedThenSyn(n, m, first);
    RunConcat(n, first, second);
    StreamingDelivers(n.(passive := n.passive.(masterRepeated := true)), e, second);
  }
}
