/**
 * The handler as sender: what a message that has won the bus puts on the wire and reports, with refused
 * attempts of either part, and how an exchange fails.
 */
module Transmission {
  import opened Bytes
  import opened Stuffing
  import opened Crc
  import opened Telegram
  import opened Handler
  import opened HandlerInvariant
  import opened HandlerSteps
  import opened Reception
  import opened Feed
  import opened Effort
  import Request

  // ---------- Taking a message ----------

  /** The part that a message of this node stands for: given without or with its matching CRC. */
  predicate Stands(source: byte, message: seq<byte>, m: seq<byte>) {
    ValidMaster(m) && ([source] + message == m || [source] + message == Part(m))
  }

  /** A message is taken exactly if none is pending and it stands for a valid part, which is then pending. */
  lemma SendExactly(n: Node, message: seq<byte>)
    ensures var x := SendActiveMessage(n, message);
            && (n.active.message ==> x == n)
            && (!n.active.message ==> (x.active.message <==> exists m :: Stands(n.source, message, m)))
            && (!n.active.message ==> forall m :: Stands(n.source, message, m) ==> HoldsMaster(x.active.tel) && x.active.tel.master == m)
            && x == n.(active := n.active.(tel := x.active.tel, message := x.active.message))
  {
    hide CreateMaster, ValidMaster, LogicalCrc;
    CreateMasterExact(n.active.tel, [n.source] + message);
    var t := CreateMaster(n.active.tel, [n.source] + message);
    if !n.active.message && message != [] && t.masterState == SeqOk {
      assert Stands(n.source, message, t.master);
    }
    forall m | Stands(n.source, message, m)
      ensures message != []
    {
      ValidIsLong(m);
      assert |Part(m)| == |m| + 1;
    }
  }

  lemma ValidIsLong(m: seq<byte>)
    requires ValidMaster(m)
    ensures |m| >= 5
  {
  }

  /** A completed bus request puts a pending message up for arbitration; without one nothing changes. */
  lemma RequestEntersArbitration(n: Node)
    ensures OnBusRequested(n) == if n.active.message then n.(state := RequestBus) else n
  {
  }

  // ---------- The verdict ----------

  /** The pending message of a node. */
  predicate Ready(n: Node, m: seq<byte>) {
    n.state == RequestBus && ActiveIdle(n) && n.active.message && HoldsMaster(n.active.tel) && n.active.tel.master == m
  }

  /** The part m is being sent: byte k is on the line. */
  function Sent(n: Node, m: seq<byte>, repeated: bool, k: nat, state: HandlerState): Node {
    n.(state := state,
       active := n.active.(master := Buffer(WirePart(m), true), masterIndex := k, masterRepeated := repeated))
  }

  function Idled(n: Node, state: HandlerState): Node {
    n.(state := state, active := IDLE_ACTIVE)
  }

  lemma HeldIsWire(t: Telegram)
    requires HoldsMaster(t)
    ensures MasterBuffer(t) == Buffer(WirePart(t.master), true) && |WirePart(t.master)| >= 6
  {
    hide LogicalCrc, IsMaster;
    StuffNonEmpty(Part(t.master));
  }

  /** What each verdict of the arbitration makes of a node that waits for it. */
  lemma VerdictTable(n: Node, m: seq<byte>, i: Input)
    requires Ready(n, m)
    ensures |WirePart(m)| >= 6
    ensures i.result == Request.FirstWon || i.result == Request.SecondWon ==>
              Step(n, i) == Effect(Sent(n, m, false, 1, ActiveSendMaster), Some(WirePart(m)[1]), [Won])
    ensures i.result == Request.FirstSyn || i.result == Request.FirstRetry || i.result == Request.RetrySyn ==>
              Step(n, i) == Start(n)
    ensures i.result == Request.ObserveSyn || i.result == Request.ObserveData || i.result == Request.RetryError ==>
              Step(n, i) == Effect(Idled(n, PassiveReceiveMaster), None, [Lost])
    ensures i.result == Request.FirstLost || i.result == Request.FirstError ||
            i.result == Request.SecondLost || i.result == Request.SecondError ==>
              Step(n, i) == Effect(Idled(n, PassiveReceiveMaster).(
                                     passive := n.passive.(master := Buffer(n.passive.master.bytes + [i.b], true))), None, [Lost])
  {
    hide HoldsMaster, MasterBuffer, WirePart, Step;
    HeldIsWire(n.active.tel);
    ArbitrationStep(n, i);
  }

  lemma ArbitrationStep(n: Node, i: Input)
    requires n.state == RequestBus
    ensures Step(n, i) == OnRequestBus(Start(n), i.b, i.result)
  {
    hide OnRequestBus;
  }

  // ---------- Sending the master part ----------

  /** The message is m, and nothing of a reply has been read. */
  predicate Carrying(n: Node, m: seq<byte>) {
    && n.active.message && HoldsMaster(n.active.tel) && n.active.tel.master == m
    && ActiveSlaveFresh(n.active) && !n.active.slaveRepeated
  }

  /** Where the sender stands when its last byte was read back, and what it has reported and written by then. */
  function MasterOut(n: Node, m: seq<byte>, repeated: bool): Outcome {
    if KindOf(m) == Broadcast then
      Outcome(Idled(n, ReleaseBus), [SYN], [Delivered(ActiveMessage, Broadcast, WirePart(m), [])])
    else Outcome(Sent(n, m, repeated, |WirePart(m)|, ActiveReceiveMasterAcknowledge), [], [])
  }

  lemma EchoStep(n: Node, m: seq<byte>, repeated: bool, k: nat, i: Input)
    requires Carrying(n, m) && k < |WirePart(m)|
    ensures Step(Sent(n, m, repeated, k, ActiveSendMaster), i) ==
            if i.b != WirePart(m)[k] then
              Effect(Idled(n, PassiveReceiveMaster), None, [Failed(ErrorActiveMasterEcho, SeqOk, WirePart(m), [])])
            else if k + 1 < |WirePart(m)| then
              Effect(Sent(n, m, repeated, k + 1, ActiveSendMaster), Some(WirePart(m)[k + 1]), [])
            else if KindOf(m) == Broadcast then
              Effect(Idled(n, ReleaseBus), Some(SYN), [Delivered(ActiveMessage, Broadcast, WirePart(m), [])])
            else Start(Sent(n, m, repeated, k + 1, ActiveReceiveMasterAcknowledge))
  {
    hide WirePart, KindOf, ValidMaster, LogicalCrc;
  }

  /** With every byte read back, the rest of the part goes out byte by byte. */
  lemma {:induction false} EchoRun(n: Node, m: seq<byte>, repeated: bool, k: nat, ins: seq<Input>)
    requires Carrying(n, m) && k < |WirePart(m)| && Carries(ins, WirePart(m)[k..])
    ensures Run(Sent(n, m, repeated, k, ActiveSendMaster), ins) ==
            Then(Outcome(n, WirePart(m)[k + 1..], []), MasterOut(n, m, repeated))
    decreases |ins|
  {
    hide Step, Run, Then, WirePart, Sent, Carrying, KindOf, Idled, Carries;
    var w := WirePart(m);
    CarriesNext(ins, w, k);
    EchoStep(n, m, repeated, k, ins[0]);
    var x := Sent(n, m, repeated, k, ActiveSendMaster);
    RunFirst(x, ins);
    if k + 1 < |w| {
      EchoRun(n, m, repeated, k + 1, ins[1..]);
      assert w[k + 1..] == [w[k + 1]] + w[k + 2..];
      ThenWrites(n, [w[k + 1]], w[k + 2..], MasterOut(n, m, repeated));
      OnlyWrites(Sent(n, m, repeated, k + 1, ActiveSendMaster), n, [w[k + 1]],
                 Then(Outcome(n, w[k + 2..], []), MasterOut(n, m, repeated)));
    } else {
      assert w[k + 1..] == [];
      CarriesNothing(ins[1..], w[k + 1..]);
      RunNothing(Step(x, ins[0]).node, ins[1..]);
      LastEcho(n, m, repeated);
    }
  }

  lemma OnlyWrites(x: Node, y: Node, w: seq<byte>, z: Outcome)
    ensures Then(Outcome(x, w, []), z) == Then(Outcome(y, w, []), z)
  {
  }

  lemma LastEcho(n: Node, m: seq<byte>, repeated: bool)
    ensures var e := MasterOut(n, m, repeated);
            Then(e, Outcome(e.node, [], [])) == e && Then(Outcome(n, [], []), e) == e
  {
    hide WirePart, KindOf;
  }

  // ---------- The acknowledge of the master part ----------

  lemma AcknowledgeStep(n: Node, m: seq<byte>, repeated: bool, i: Input)
    requires Carrying(n, m) && KindOf(m) != Broadcast
    ensures |WirePart(m)| >= 6
    ensures Step(Sent(n, m, repeated, |WirePart(m)|, ActiveReceiveMasterAcknowledge), i) ==
            if i.b == ACK && KindOf(m) == MasterMaster then
              Effect(Idled(n, ReleaseBus), Some(SYN), [Delivered(ActiveMessage, MasterMaster, WirePart(m), [])])
            else if i.b == ACK then Start(Sent(n, m, repeated, |WirePart(m)|, ActiveReceiveSlave))
            else if i.b == NAK && !repeated then
              Effect(Sent(n, m, true, 0, ActiveSendMaster), Some(WirePart(m)[0]), [])
            else Effect(Idled(n, ReleaseBus), Some(SYN), [Failed(ErrorActiveMasterAck, SeqOk, WirePart(m), [])])
  {
    HeldIsWire(n.active.tel);
    hide WirePart, KindOf, ValidMaster, LogicalCrc;
  }

  /** A first NAK has the whole part sent a second time. */
  lemma RefusalRun(n: Node, m: seq<byte>, nak: Input, ins: seq<Input>)
    requires Carrying(n, m) && KindOf(m) != Broadcast && nak.b == NAK && Carries(ins, WirePart(m))
    ensures Run(Sent(n, m, false, |WirePart(m)|, ActiveReceiveMasterAcknowledge), [nak] + ins) ==
            Outcome(Sent(n, m, true, |WirePart(m)|, ActiveReceiveMasterAcknowledge), WirePart(m), [])
  {
    hide Step, WirePart, Sent, Carrying, KindOf, Run;
    var w := WirePart(m);
    AcknowledgeStep(n, m, false, nak);
    assert w[0..] == w && w == [w[0]] + w[1..];
    EchoRun(n, m, true, 0, ins);
    var x := Sent(n, m, false, |w|, ActiveReceiveMasterAcknowledge);
    RunConcat(x, [nak], ins);
    RunOne(x, nak);
  }

  /** What the invariant says of a sender that waits for the acknowledge. */
  lemma AwaitsAcknowledge(n: Node)
    requires Inv(n) && n.state == ActiveReceiveMasterAcknowledge
    ensures var m := n.active.tel.master;
            && Carrying(n, m) && KindOf(m) != Broadcast
            && n == Sent(n, m, n.active.masterRepeated, n.active.masterIndex, ActiveReceiveMasterAcknowledge)
  {
    hide LogicalCrc, IsMaster, SlaveOf, TypeOf, Exts, Counted, Stuff, ReplyInHand, MasterInHand, Listening;
    HeldIsWire(n.active.tel);
  }

  /** The position in the part no longer matters once the acknowledge is awaited. */
  lemma PositionIrrelevant(n: Node, m: seq<byte>, repeated: bool, k: nat, l: nat, i: Input)
    requires Carrying(n, m) && KindOf(m) != Broadcast && i.b != ACK
    ensures Step(Sent(n, m, repeated, k, ActiveReceiveMasterAcknowledge), i) ==
            Step(Sent(n, m, repeated, l, ActiveReceiveMasterAcknowledge), i)
  {
    hide WirePart, KindOf, ValidMaster, LogicalCrc;
  }

  /**
   * On every run: a sender whose part is refused for the first time repeats all of it, byte for byte and
   * without a report, and awaits the acknowledge again; refused twice, or answered by anything else, it
   * writes SYN and reports exactly one error.
   */
  lemma RepeatsOnceOnNak(n: Node, nak: Input, ins: seq<Input>, second: Input)
    requires Inv(n) && n.state == ActiveReceiveMasterAcknowledge && nak.b == NAK && second.b != ACK
    requires Carries(ins, WirePart(n.active.tel.master))
    ensures var w := WirePart(n.active.tel.master);
            var failed := [Failed(ErrorActiveMasterAck, SeqOk, w, [])];
            if n.active.masterRepeated then Step(n, nak) == Effect(Idled(n, ReleaseBus), Some(SYN), failed)
            else
              var again := Run(n, [nak] + ins);
              && again == Outcome(n.(active := n.active.(masterRepeated := true, masterIndex := |w|)), w, [])
              && Step(again.node, second) == Effect(Idled(n, ReleaseBus), Some(SYN), failed)
  {
    hide Step, WirePart, Carrying, KindOf, Inv;
    AwaitsAcknowledge(n);
    var m := n.active.tel.master;
    var w := WirePart(m);
    var x := Sent(n, m, n.active.masterRepeated, |w|, ActiveReceiveMasterAcknowledge);
    PositionIrrelevant(n, m, n.active.masterRepeated, n.active.masterIndex, |w|, nak);
    AcknowledgeStep(n, m, n.active.masterRepeated, nak);
    if !n.active.masterRepeated {
      RefusalRun(n, m, nak, ins);
      SameStart(n, x, nak, ins);
      AcknowledgeStep(n, m, true, second);
    }
  }

  lemma SameStart(x: Node, y: Node, i: Input, ins: seq<Input>)
    requires Step(x, i) == Step(y, i)
    ensures Run(x, [i] + ins) == Run(y, [i] + ins)
  {
    hide Step;
    assert ([i] + ins)[1..] == ins;
  }

  // ---------- Reading the reply ----------

  /** The sender while it reads the reply: v has been read of it. */
  function Reading(n: Node, v: seq<byte>): Node {
    n.(state := ActiveReceiveSlave,
       active := n.active.(slave := Buffer(v, v != []), slaveDbx := if v == [] then 0 else v[0] + Exts(v)))
  }

  /** The message is m and its part has been sent. */
  predicate Answered(n: Node, m: seq<byte>) {
    && n.active.message && HoldsMaster(n.active.tel) && n.active.tel.master == m
    && n.active.master == Buffer(WirePart(m), true)
  }

  /** Bytes that are no reply: too many data bytes announced, or complete and not a valid part. */
  ghost predicate Spoiled(v: seq<byte>) {
    && v != []
    && (if v[0] > MAX_DATA_BYTES then |v| == 1
        else Plain(v) == 2 + v[0] && v[|v| - 1] != EXT && forall s :: ValidSlave(s) ==> Unstuff(v) != Part(s))
  }

  lemma SpoiledNotEmpty(v: seq<byte>)
    requires Spoiled(v)
    ensures v != []
  {
  }

  /** What is wrong with them. */
  function Flaw(v: seq<byte>): SequenceState
    requires v != []
  {
    if v[0] > MAX_DATA_BYTES then ErrDataByte
    else if |Unstuff(v)| == 2 + v[0] then ErrCrc
    else ErrTooLong
  }

  /** What is reported of them. */
  function Remains(v: seq<byte>): seq<byte>
    requires v != []
  {
    if v[0] > MAX_DATA_BYTES then [] else Unstuff(v)
  }

  lemma ReadingStep(n: Node, v: seq<byte>, i: Input)
    requires v == [] ==> i.b <= MAX_DATA_BYTES
    requires v != [] ==> v[0] <= MAX_DATA_BYTES
    requires var u := v + [i.b]; Plain(u) < 2 + u[0]
    ensures Step(Reading(n, v), i) == Start(Reading(n, v + [i.b]))
  {
    hide Exts;
    ExtsSnoc(v, i.b);
    NoExts([]);
  }

  /** The node that has refused a reply. */
  function Refusing(n: Node, t: Telegram): Node {
    n.(state := ActiveSendSlaveNegativeAcknowledge, active := n.active.(tel := t, slave := EMPTY, slaveDbx := 0))
  }

  function TelAfter(n: Node, v: seq<byte>): Telegram
    requires v != []
  {
    if v[0] > MAX_DATA_BYTES then n.active.tel else CreateSlave(n.active.tel, Unstuff(v))
  }

  /** A part with another CRC or of another length than announced is no reply. */
  lemma SpoiledIsRejected(t: Telegram, v: seq<byte>)
    requires Spoiled(v) && v[0] <= MAX_DATA_BYTES
    ensures CreateSlave(t, Unstuff(v)).slaveState == Flaw(v)
  {
    hide LogicalCrc, Unstuff, Exts;
    var u := Unstuff(v);
    UnstuffHead(v);
    UnstuffShrinks(v);
    if |u| == 2 + v[0] {
      var s := u[..|u| - 1];
      assert ValidSlave(s) && u == s + [u[|u| - 1]];
      assert Part(s) != u;
    }
  }

  lemma SpoiledStep(n: Node, m: seq<byte>, v: seq<byte>, i: Input)
    requires Answered(n, m) && Spoiled(v) && i.b == v[|v| - 1]
    ensures Step(Reading(n, v[..|v| - 1]), i) ==
            Effect(Refusing(n, TelAfter(n, v)), Some(NAK), [Failed(ErrorActiveSlave, Flaw(v), WirePart(m), Remains(v))])
  {
    hide Exts, WirePart, CreateSlave, Unstuff, HoldsMaster;
    var p := v[..|v| - 1];
    assert v == p + [i.b];
    ExtsSnoc(p, i.b);
    NoExts([]);
    if v[0] <= MAX_DATA_BYTES {
      SpoiledIsRejected(n.active.tel, v);
    }
  }

  lemma {:induction false} SpoiledRun(n: Node, m: seq<byte>, v: seq<byte>, k: nat, ins: seq<Input>)
    requires Answered(n, m) && Spoiled(v) && k < |v| && Carries(ins, v[k..])
    ensures Run(Reading(n, v[..k]), ins) ==
            Outcome(Refusing(n, TelAfter(n, v)), [NAK], [Failed(ErrorActiveSlave, Flaw(v), WirePart(m), Remains(v))])
    decreases |ins|
  {
    hide Step, Run, WirePart, Reading, Refusing, TelAfter, Flaw, Remains, Answered, Unstuff, Carries;
    CarriesNext(ins, v, k);
    CarriesLength(ins, v[k..]);
    if k + 1 < |v| {
      PlainBefore(v, k + 1);
      ReadingStep(n, v[..k], ins[0]);
      RunQuietly(Reading(n, v[..k]), Reading(n, v[..k + 1]), ins);
      SpoiledRun(n, m, v, k + 1, ins[1..]);
    } else {
      SpoiledStep(n, m, v, ins[0]);
      assert ins == [ins[0]];
      RunOne(Reading(n, v[..k]), ins[0]);
    }
  }

  /** The last byte completes the count, and no earlier one. */
  lemma PlainBefore(v: seq<byte>, k: nat)
    requires Spoiled(v) && 1 <= k < |v|
    ensures v[0] <= MAX_DATA_BYTES && Plain(v[..k]) < 2 + v[0]
  {
    hide Exts, Unstuff;
    var l := |v| - 1;
    assert v == v[..l] + [v[l]];
    PlainSnoc(v[..l], v[l]);
    assert v[..l] == v[..k] + v[k..l];
    PlainConcat(v[..k], v[k..l]);
    ExtsConcat([], v[k..l]);
  }

  /** A first refusal has the reply read again; a second one ends the exchange with one error. */
  lemma RefusingStep(n: Node, m: seq<byte>, t: Telegram, i: Input)
    requires Answered(n, m)
    ensures Step(Refusing(n, t), i) ==
            if !n.active.slaveRepeated then
              Start(Reading(n.(active := n.active.(tel := t, slaveRepeated := true)), []))
            else Effect(Idled(n, ReleaseBus), Some(SYN), [Failed(ErrorActiveSlaveAck, t.slaveState, WirePart(m), [])])
  {
    hide WirePart, HoldsMaster;
  }

  lemma {:induction false} ReplyRun(n: Node, s: seq<byte>, k: nat, ins: seq<Input>)
    requires ValidSlave(s) && n.state == ActiveReceiveSlave && ActiveSlaveFresh(n.active)
    requires k < |WirePart(s)| && Carries(ins, WirePart(s)[k..])
    ensures Run(ActiveSlaveMid(n, s, k), ins) == Outcome(ActiveSlaveDone(n, s), [ACK], [])
    ensures SlaveTel(n.active.tel, ActiveSlaveDone(n, s).active.tel, s)
    decreases |ins|
  {
    hide Step, Run, WirePart, ActiveSlaveMid, ValidSlave, CreateSlave, Part, SlaveDbx, Carries;
    var w := WirePart(s);
    CarriesNext(ins, w, k);
    CarriesLength(ins, w[k..]);
    SlaveAccepted(n.active.tel, s);
    if k + 1 < |w| {
      StepActiveSlaveMid(n, s, k, ins[0]);
      RunQuietly(ActiveSlaveMid(n, s, k), ActiveSlaveMid(n, s, k + 1), ins);
      ReplyRun(n, s, k + 1, ins[1..]);
    } else {
      StepActiveSlaveLast(n, s, ins[0]);
      assert ins == [ins[0]];
      RunOne(ActiveSlaveMid(n, s, k), ins[0]);
    }
  }

  lemma DeliveryStep(n: Node, m: seq<byte>, s: seq<byte>, i: Input)
    requires ValidSlave(s) && Answered(n, m)
    ensures Step(ActiveSlaveDone(n, s), i) ==
            Effect(Idled(n, ReleaseBus), Some(SYN), [Delivered(ActiveMessage, MasterSlave, m, s)])
    ensures Step(Idled(n, ReleaseBus), i) == Start(Idled(n, PassiveReceiveMaster))
  {
    hide WirePart, CreateSlave, Part, SlaveDbx, ValidSlave, ValidMaster, LogicalCrc, KindOf;
    SlaveAccepted(n.active.tel, s);
  }

  /** A valid reply is acknowledged and delivered, and the bus released. */
  lemma ReplyDelivered(n: Node, m: seq<byte>, s: seq<byte>, reply: seq<Input>, rest: seq<Input>)
    requires Answered(n, m) && ValidSlave(s) && n.state == ActiveReceiveSlave && ActiveSlaveFresh(n.active)
    requires Carries(reply, WirePart(s)) && |rest| == 2
    ensures Run(n, reply + rest) ==
            Outcome(Idled(n, PassiveReceiveMaster), [ACK, SYN], [Delivered(ActiveMessage, MasterSlave, m, s)])
  {
    hide Step, Run, WirePart, Answered, ValidSlave, ActiveSlaveDone, CreateSlave, Part;
    SlaveHeader(s);
    assert WirePart(s)[0..] == WirePart(s) && WirePart(s)[..0] == [];
    assert ActiveSlaveMid(n, s, 0) == n;
    ReplyRun(n, s, 0, reply);
    RunConcat(n, reply, rest);
    var x := ActiveSlaveDone(n, s);
    assert rest == [rest[0]] + [rest[1]];
    DeliveryStep(n, m, s, rest[0]);
    DeliveryStep(n, m, s, rest[1]);
    RunConcat(x, [rest[0]], [rest[1]]);
    RunOne(x, rest[0]);
    RunOne(Idled(n, ReleaseBus), rest[1]);
  }

  // ---------- The whole exchange ----------

  /** The node that reads the reply after an optional spoiled one. */
  function AfterSpoiled(n: Node, spoiled: Option<seq<byte>>): Node
    requires spoiled.Some? ==> spoiled.value != []
  {
    match spoiled
    case None => n
    case Some(v) => n.(active := n.active.(tel := TelAfter(n, v), slaveRepeated := true))
  }

  function SpoiledReport(m: seq<byte>, spoiled: Option<seq<byte>>): seq<Output>
    requires spoiled.Some? ==> spoiled.value != []
  {
    if spoiled.Some? then [Failed(ErrorActiveSlave, Flaw(spoiled.value), WirePart(m), Remains(spoiled.value))] else []
  }

  /** The inputs bring a spoiled reply and one more byte, or nothing. */
  predicate BringsSpoiled(ins: seq<Input>, spoiled: Option<seq<byte>>) {
    if spoiled.Some? then |ins| == |spoiled.value| + 1 && Carries(ins[..|spoiled.value|], spoiled.value) else ins == []
  }

  lemma SpoiledPhase(n: Node, m: seq<byte>, spoiled: Option<seq<byte>>, ins: seq<Input>)
    requires Answered(n, m) && n.state == ActiveReceiveSlave && ActiveSlaveFresh(n.active) && !n.active.slaveRepeated
    requires (spoiled.Some? ==> Spoiled(spoiled.value)) && BringsSpoiled(ins, spoiled)
    ensures Run(n, ins) == Outcome(AfterSpoiled(n, spoiled), if spoiled.Some? then [NAK] else [], SpoiledReport(m, spoiled))
    ensures Answered(AfterSpoiled(n, spoiled), m)
  {
    hide Step, Run, WirePart, Flaw, Remains, TelAfter, Spoiled, Answered, HoldsMaster;
    if spoiled.None? {
      RunNothing(n, ins);
    } else {
      var v := spoiled.value;
      SpoiledNotEmpty(v);
      var a, last := ins[..|v|], ins[|v|];
      assert ins == a + [last];
      assert v[0..] == v && v[..0] == [] && Reading(n, []) == n;
      SpoiledRun(n, m, v, 0, a);
      RunConcat(n, a, [last]);
      var t := TelAfter(n, v);
      RunOne(Refusing(n, t), last);
      RefusingStep(n, m, t, last);
      StillAnswered(n, m, v);
    }
  }

  lemma StillAnswered(n: Node, m: seq<byte>, v: seq<byte>)
    requires Answered(n, m) && v != []
    ensures Answered(AfterSpoiled(n, Some(v)), m)
  {
    hide HoldsMaster, CreateSlave, Unstuff, WirePart;
    KeepsMaster(n.active.tel, v);
  }

  lemma KeepsMaster(t: Telegram, v: seq<byte>)
    ensures HoldsMaster(t) ==> HoldsMaster(CreateSlave(t, Unstuff(v))) && CreateSlave(t, Unstuff(v)).master == t.master
  {
    hide ValidMaster, LogicalCrc, Unstuff;
  }

  lemma WinAndSend(n: Node, m: seq<byte>, win: Input, echo: seq<Input>)
    requires Ready(n, m) && (win.result == Request.FirstWon || win.result == Request.SecondWon)
    requires |WirePart(m)| >= 6 && Carries(echo, WirePart(m)[1..])
    ensures Run(n, [win] + echo) == Then(Outcome(n, WirePart(m)[1..], [Won]), MasterOut(n, m, false))
  {
    hide Step, Run, WirePart, Ready, Carrying, Sent, MasterOut;
    ReadyCarries(n, m);
    VerdictTable(n, m, win);
    EchoRun(n, m, false, 1, echo);
    RunConcat(n, [win], echo);
    RunOne(n, win);
    assert WirePart(m)[1..] == [WirePart(m)[1]] + WirePart(m)[2..];
  }

  /** The inputs bring a NAK and the repeated part, or nothing. */
  predicate BringsRefusal(ins: seq<Input>, m: seq<byte>, refused: bool) {
    if refused then ins != [] && ins[0].b == NAK && Carries(ins[1..], WirePart(m)) else ins == []
  }

  lemma RefusalPhase(n: Node, m: seq<byte>, refused: bool, ins: seq<Input>)
    requires Carrying(n, m) && KindOf(m) != Broadcast && BringsRefusal(ins, m, refused)
    ensures Run(Sent(n, m, false, |WirePart(m)|, ActiveReceiveMasterAcknowledge), ins) ==
            Outcome(Sent(n, m, refused, |WirePart(m)|, ActiveReceiveMasterAcknowledge), if refused then WirePart(m) else [], [])
  {
    hide Run, WirePart, Carrying, KindOf, Sent;
    if refused {
      RefusalRun(n, m, ins[0], ins[1..]);
      assert [ins[0]] + ins[1..] == ins;
    } else {
      RunNothing(Sent(n, m, false, |WirePart(m)|, ActiveReceiveMasterAcknowledge), ins);
    }
  }

  lemma ReadyCarries(n: Node, m: seq<byte>)
    requires Ready(n, m)
    ensures Carrying(n, m) && |WirePart(m)| >= 6
  {
    HeldIsWire(n.active.tel);
    hide HoldsMaster, WirePart;
  }

  /**
   * A master-slave message that won the bus, with or without a first refusal of its part, and with or
   * without a spoiled first reply: the sender writes exactly its part, the whole of it again after a
   * refusal, NAK to a spoiled reply, ACK to the valid one and SYN; it reports the spoiled reply if there
   * was one, delivers the exchange, and is idle.
   */
  lemma SenderCompletes(
    n: Node, m: seq<byte>, s: seq<byte>, refused: bool, spoiled: Option<seq<byte>>,
    win: Input, echo: seq<Input>, refusal: seq<Input>, ack: Input, bad: seq<Input>, reply: seq<Input>, rest: seq<Input>)
    requires Ready(n, m) && KindOf(m) == MasterSlave && ValidSlave(s) && (spoiled.Some? ==> Spoiled(spoiled.value))
    requires win.result == Request.FirstWon || win.result == Request.SecondWon
    requires WirePart(m) != [] && Carries(echo, WirePart(m)[1..]) && BringsRefusal(refusal, m, refused)
    requires ack.b == ACK && BringsSpoiled(bad, spoiled) && Carries(reply, WirePart(s)) && |rest| == 2
    ensures var w := WirePart(m);
            Run(n, ([win] + echo) + (refusal + ([ack] + (bad + (reply + rest))))) ==
            Outcome(Idled(n, PassiveReceiveMaster),
                    w[1..] + ((if refused then w else []) + ((if spoiled.Some? then [NAK] else []) + [ACK, SYN])),
                    [Won] + (SpoiledReport(m, spoiled) + [Delivered(ActiveMessage, MasterSlave, m, s)]))
  {
    hide Step, Run, WirePart, Ready, Sent, Spoiled, BringsSpoiled, BringsRefusal, SpoiledReport, AfterSpoiled, ValidSlave,
         KindOf, Carrying, Answered;
    ReadyCarries(n, m);
    if spoiled.Some? {
      SpoiledNotEmpty(spoiled.value);
    }
    var x0 := Sent(n, m, false, |WirePart(m)|, ActiveReceiveMasterAcknowledge);
    var x1 := Sent(n, m, refused, |WirePart(m)|, ActiveReceiveMasterAcknowledge);
    var x2 := Sent(n, m, refused, |WirePart(m)|, ActiveReceiveSlave);
    var r4 := reply + rest;
    var r3 := bad + r4;
    var r2 := [ack] + r3;
    WinAndSend(n, m, win, echo);
    RunConcat(n, [win] + echo, refusal + r2);
    RefusalPhase(n, m, refused, refusal);
    RunConcat(x0, refusal, r2);
    AcknowledgeStep(n, m, refused, ack);
    RunConcat(x1, [ack], r3);
    RunOne(x1, ack);
    ReadsReply(n, m, refused);
    SpoiledPhase(x2, m, spoiled, bad);
    RunConcat(x2, bad, r4);
    SpoiledStaysFresh(x2, spoiled);
    ReplyDelivered(AfterSpoiled(x2, spoiled), m, s, reply, rest);
    SameIdle(n, m, refused, spoiled);
    assert MasterOut(n, m, false) == Outcome(x0, [], []);
  }

  lemma ReadsReply(n: Node, m: seq<byte>, refused: bool)
    requires Carrying(n, m)
    ensures var x := Sent(n, m, refused, |WirePart(m)|, ActiveReceiveSlave);
            Answered(x, m) && x.state == ActiveReceiveSlave && ActiveSlaveFresh(x.active) && !x.active.slaveRepeated
  {
    hide WirePart, HoldsMaster;
  }

  lemma SpoiledStaysFresh(n: Node, spoiled: Option<seq<byte>>)
    requires spoiled.Some? ==> Spoiled(spoiled.value)
    requires n.state == ActiveReceiveSlave && ActiveSlaveFresh(n.active)
    ensures AfterSpoiled(n, spoiled).state == ActiveReceiveSlave && ActiveSlaveFresh(AfterSpoiled(n, spoiled).active)
  {
    hide CreateSlave, Unstuff;
  }

  lemma SameIdle(n: Node, m: seq<byte>, refused: bool, spoiled: Option<seq<byte>>)
    requires spoiled.Some? ==> spoiled.value != []
    ensures var x := Sent(n, m, refused, |WirePart(m)|, ActiveReceiveSlave);
            Idled(AfterSpoiled(x, spoiled), PassiveReceiveMaster) == Idled(n, PassiveReceiveMaster)
  {
    hide WirePart, CreateSlave, Unstuff;
  }

  /** A master-master message is delivered on ACK, a broadcast with its last byte; refusals as before. */
  lemma SenderCompletesMaster(
    n: Node, m: seq<byte>, refused: bool, win: Input, echo: seq<Input>, refusal: seq<Input>, ack: Input)
    requires Ready(n, m) && KindOf(m) == MasterMaster && (win.result == Request.FirstWon || win.result == Request.SecondWon)
    requires WirePart(m) != [] && Carries(echo, WirePart(m)[1..]) && BringsRefusal(refusal, m, refused) && ack.b == ACK
    ensures var w := WirePart(m);
            Run(n, ([win] + echo) + (refusal + [ack])) ==
            Outcome(Idled(n, ReleaseBus), w[1..] + ((if refused then w else []) + [SYN]),
                    [Won, Delivered(ActiveMessage, MasterMaster, w, [])])
  {
    hide Step, Run, WirePart, Ready, Sent, BringsRefusal, KindOf, Carrying;
    ReadyCarries(n, m);
    var x0 := Sent(n, m, false, |WirePart(m)|, ActiveReceiveMasterAcknowledge);
    var x1 := Sent(n, m, refused, |WirePart(m)|, ActiveReceiveMasterAcknowledge);
    WinAndSend(n, m, win, echo);
    RunConcat(n, [win] + echo, refusal + [ack]);
    RefusalPhase(n, m, refused, refusal);
    RunConcat(x0, refusal, [ack]);
    AcknowledgeStep(n, m, refused, ack);
    RunOne(x1, ack);
    assert MasterOut(n, m, false) == Outcome(x0, [], []);
  }

  /** Two spoiled replies end the exchange: NAK twice, then SYN, and one error for each and for giving up. */
  lemma TwoSpoiledRepliesFail(n: Node, m: seq<byte>, v1: seq<byte>, v2: seq<byte>, first: seq<Input>, second: seq<Input>)
    requires Answered(n, m) && n.state == ActiveReceiveSlave && ActiveSlaveFresh(n.active) && !n.active.slaveRepeated
    requires Spoiled(v1) && Spoiled(v2) && BringsSpoiled(first, Some(v1)) && BringsSpoiled(second, Some(v2))
    ensures var x := AfterSpoiled(n, Some(v1));
            Run(n, first + second) ==
            Outcome(Idled(n, ReleaseBus), [NAK, NAK, SYN],
                    SpoiledReport(m, Some(v1)) + SpoiledReport(m, Some(v2)) +
                    [Failed(ErrorActiveSlaveAck, TelAfter(x, v2).slaveState, WirePart(m), [])])
  {
    hide Step, Run, WirePart, Spoiled, Flaw, Remains, Answered, TelAfter;
    SpoiledNotEmpty(v1);
    SpoiledNotEmpty(v2);
    SpoiledPhase(n, m, Some(v1), first);
    RunConcat(n, first, second);
    var x := AfterSpoiled(n, Some(v1));
    var a, last := second[..|v2|], second[|v2|];
    assert second == a + [last];
    SpoiledStaysFresh(n, Some(v1));
    assert v2[0..] == v2 && v2[..0] == [] && Reading(x, []) == x;
    SpoiledRun(x, m, v2, 0, a);
    RunConcat(x, a, [last]);
    RunOne(Refusing(x, TelAfter(x, v2)), last);
    RefusingStep(x, m, TelAfter(x, v2), last);
  }
}
