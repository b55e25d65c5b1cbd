/**
 * Three handlers on one wire: the one that won arbitration, the one it addresses and one that observes.
 * The wire carries exactly what they write, and all three report the same exchange.
 */
module Agreement {
  import opened Bytes
  import opened Stuffing
  import opened Crc
  import opened Telegram
  import opened Handler
  import opened HandlerInvariant
  import opened HandlerSteps
  import opened Reception
  import opened Feed
  import opened Streaming
  import opened Losers
  import opened Transmission
  import Arbitration
  import Request

  datatype Trio = Trio(active: Node, reactive: Node, passive: Node)

  /** What happened on the wire and at each node; `exclusive` if no byte had two writers. */
  datatype Session = Session(
    wire: seq<byte>, exclusive: bool, nodes: Trio,
    activeOuts: seq<Output>, reactiveOuts: seq<Output>, passiveOuts: seq<Output>)

  /** What the arbiter of each node makes of a byte. */
  datatype Verdicts = Verdicts(active: Request.RequestResult, reactive: Request.RequestResult, passive: Request.RequestResult)

  /** After the arbitration everybody observes. */
  const DECIDED := Verdicts(Request.ObserveData, Request.ObserveData, Request.ObserveData)

  function StepActive(t: Trio, b: byte, v: Verdicts): Effect {
    Step(t.active, Input(b, v.active, EMPTY))
  }

  function StepReactive(t: Trio, b: byte, v: Verdicts, reply: Buffer): Effect {
    Step(t.reactive, Input(b, v.reactive, reply))
  }

  function StepPassive(t: Trio, b: byte, v: Verdicts): Effect {
    Step(t.passive, Input(b, v.passive, EMPTY))
  }

  /** All bytes written in one step; the line shows their wired AND. */
  function WritersOf(a: Effect, r: Effect, p: Effect): seq<byte> {
    Written(a) + Written(r) + Written(p)
  }

  /**
   * The closed loop: every node reads the byte on the line; what they write is the next byte; the session
   * ends when nobody writes. `v` holds the verdicts on the byte that decided the arbitration; `reply` is
   * what the reactive callback answers.
   */
  function Loop(t: Trio, b: byte, v: Verdicts, reply: Buffer, fuel: nat): Session
    decreases fuel
  {
    var a, r, p := StepActive(t, b, v), StepReactive(t, b, v, reply), StepPassive(t, b, v);
    var next := Trio(a.node, r.node, p.node);
    var now := Session([b], |WritersOf(a, r, p)| <= 1, next, a.outs, r.outs, p.outs);
    if fuel == 0 || WritersOf(a, r, p) == [] then now
    else Append(now, Loop(next, Arbitration.Line(WritersOf(a, r, p)), DECIDED, reply, fuel - 1))
  }

  function Append(x: Session, y: Session): Session {
    Session(x.wire + y.wire, x.exclusive && y.exclusive, y.nodes,
            x.activeOuts + y.activeOuts, x.reactiveOuts + y.reactiveOuts, x.passiveOuts + y.passiveOuts)
  }

  /** A single writer puts its own byte on the line. */
  lemma SingleWriter(b: byte)
    ensures Arbitration.Line([b]) == b
  {
    LineIdentity(b);
    assert Arbitration.Line([]) == 0xFF;
  }

  lemma LineIdentity(b: byte)
    ensures Arbitration.WiredAnd(b, 0xFF) == b
  {
    Arbitration.AllOnes(b);
  }

  // ---------- The sender ----------

  predicate IsWin(result: Request.RequestResult) {
    result == Request.FirstWon || result == Request.SecondWon
  }

  lemma SenderWins(n: Node, m: seq<byte>, i: Input)
    requires Ready(n, m) && IsWin(i.result)
    ensures |WirePart(m)| >= 6
    ensures Step(n, i) == Effect(Sent(n, m, false, 1, ActiveSendMaster), Some(WirePart(m)[1]), [Won])
  {
    hide Step, Ready, Sent, WirePart;
    VerdictTable(n, m, i);
  }

  /** The sender once its master part was acknowledged. */
  function AwaitingReply(n: Node, m: seq<byte>): Node {
    Sent(n, m, false, |WirePart(m)|, ActiveReceiveSlave)
  }

  lemma SenderAcknowledged(n: Node, m: seq<byte>, i: Input)
    requires Ready(n, m) && KindOf(m) == MasterSlave && i.b == ACK
    ensures Step(Sent(n, m, false, |WirePart(m)|, ActiveReceiveMasterAcknowledge), i) == Start(AwaitingReply(n, m))
    ensures AwaitingReply(n, m).state == ActiveReceiveSlave && ActiveSlaveFresh(AwaitingReply(n, m).active)
  {
    hide WirePart, KindOf, Ready, Carrying, Sent, Step;
    ReadyCarries(n, m);
    AcknowledgeStep(n, m, false, i);
    ReadsReply(n, m, false);
  }

  lemma SenderDelivers(n: Node, m: seq<byte>, s: seq<byte>, i: Input)
    requires Ready(n, m) && ValidSlave(s)
    ensures Step(ActiveSlaveDone(AwaitingReply(n, m), s), i) ==
            Effect(Idled(n, ReleaseBus), Some(SYN), [Delivered(ActiveMessage, MasterSlave, m, s)])
    ensures Step(Idled(n, ReleaseBus), i) == Start(Idled(n, PassiveReceiveMaster))
  {
    hide WirePart, Ready, Carrying, Step, ValidSlave, ActiveSlaveDone, Answered;
    ReadyCarries(n, m);
    ReadsReply(n, m, false);
    DeliveryStep(AwaitingReply(n, m), m, s, i);
  }

  /** Nothing received, no repetition pending. */
  function Settled(n: Node): Node {
    n.(passive := IDLE_PASSIVE)
  }

  // ---------- The responder ----------

  predicate Responder(n: Node, m: seq<byte>, s: seq<byte>, reply: Buffer) {
    && Waiting(n) && ValidMaster(m) && ValidSlave(s) && KindOf(m) == MasterSlave
    && m[1] == n.target && m[1] != n.source
    && (reply.Reduced() == Part(s) || (reply.Reduced() == s && s != [0]))
  }

  function ReplyTel(m: seq<byte>, reply: Buffer): Telegram {
    CreateSlave(CreateMaster(CLEARED, Part(m)), reply.Reduced())
  }

  /** Byte k of the reply is on the line. */
  function Answering(n: Node, m: seq<byte>, s: seq<byte>, reply: Buffer, k: nat, state: HandlerState): Node
    requires ValidMaster(m)
  {
    n.(state := state,
       passive := MasterDone(n, m).passive.(tel := ReplyTel(m, reply), slave := Buffer(WirePart(s), true), slaveIndex := k))
  }

  lemma ReplyTelFacts(n: Node, m: seq<byte>, s: seq<byte>, reply: Buffer)
    requires Responder(n, m, s, reply)
    ensures var t := ReplyTel(m, reply);
            t.kind == MasterSlave && t.master == m && t.slave == s && t.slaveState == SeqOk && ReplyBuffer(t) == Buffer(WirePart(s), true)
  {
    hide KindOf, LogicalCrc, CreateMaster, CreateSlave, Stuff;
    CreateMasterExact(CLEARED, Part(m));
    assert |Part(s)| >= 2;
    CreateSlaveExact(CreateMaster(CLEARED, Part(m)), reply.Reduced());
  }

  lemma ResponderAccepts(n: Node, m: seq<byte>, s: seq<byte>, reply: Buffer, i: Input)
    requires Responder(n, m, s, reply) && i.reply == reply
    requires |WirePart(m)| > 0 && i.b == WirePart(m)[|WirePart(m)| - 1]
    ensures Step(MasterMid(n, m, |WirePart(m)| - 1), i) ==
            Effect(Answering(n, m, s, reply, 0, ReactiveSendMasterPositiveAcknowledge), Some(ACK), [])
  {
    hide WirePart, KindOf, LogicalCrc, CreateMaster, CreateSlave, MasterDbx, Step, ReplyBuffer;
    StepMasterLast(n, m, i);
    ReplyTelFacts(n, m, s, reply);
    assert Part(m)[1] == m[1];
  }

  lemma ResponderStarts(n: Node, m: seq<byte>, s: seq<byte>, reply: Buffer, i: Input)
    requires Responder(n, m, s, reply)
    ensures |WirePart(s)| >= 2
    ensures Step(Answering(n, m, s, reply, 0, ReactiveSendMasterPositiveAcknowledge), i) ==
            Effect(Answering(n, m, s, reply, 0, ReactiveSendSlave), Some(WirePart(s)[0]), [])
  {
    hide WirePart, KindOf, LogicalCrc, CreateMaster, CreateSlave, MasterDbx, ValidMaster, ValidSlave, ReplyTel, ReplyBuffer;
    ReplyTelFacts(n, m, s, reply);
    SlaveHeader(s);
  }

  lemma ResponderSends(n: Node, m: seq<byte>, s: seq<byte>, reply: Buffer, k: nat, i: Input)
    requires Responder(n, m, s, reply) && k < |WirePart(s)|
    ensures Step(Answering(n, m, s, reply, k, ReactiveSendSlave), i) ==
            if k + 1 < |WirePart(s)| then
              Effect(Answering(n, m, s, reply, k + 1, ReactiveSendSlave), Some(WirePart(s)[k + 1]), [])
            else Start(Answering(n, m, s, reply, k + 1, ReactiveReceiveSlaveAcknowledge))
  {
    hide WirePart, KindOf, LogicalCrc, CreateMaster, CreateSlave, MasterDbx, ValidMaster, ValidSlave, ReplyTel;
  }

  lemma ResponderDelivers(n: Node, m: seq<byte>, s: seq<byte>, reply: Buffer, i: Input)
    requires Responder(n, m, s, reply) && i.b == ACK
    ensures Step(Answering(n, m, s, reply, |WirePart(s)|, ReactiveReceiveSlaveAcknowledge), i) ==
            Effect(Settled(n), None, [Delivered(ReactiveMessage, MasterSlave, m, s)])
  {
    hide WirePart, KindOf, LogicalCrc, CreateMaster, CreateSlave, MasterDbx, ValidMaster, ValidSlave, ReplyTel, ReplyBuffer;
    ReplyTelFacts(n, m, s, reply);
  }

  // ---------- The observer ----------

  predicate Observer(n: Node, m: seq<byte>) {
    Waiting(n) && ValidMaster(m) && KindOf(m) == MasterSlave && Foreign(n, m)
  }

  lemma ObserverAccepts(n: Node, m: seq<byte>, i: Input)
    requires Observer(n, m) && |WirePart(m)| > 0 && i.b == WirePart(m)[|WirePart(m)| - 1]
    ensures Step(MasterMid(n, m, |WirePart(m)| - 1), i) == Start(MasterDone(n, m).(state := PassiveReceiveMasterAcknowledge))
  {
    hide WirePart, KindOf, MasterMid, MasterDone, MasterAccepted, Step, ValidMaster;
    StepMasterLast(n, m, i);
    ForeignAccepted(n, m, i.reply);
  }

  /** The observer once the master part was acknowledged. */
  function Watching(n: Node, m: seq<byte>): Node
    requires ValidMaster(m)
  {
    MasterDone(n, m).(state := PassiveReceiveSlave)
  }

  lemma ObserverAcknowledged(n: Node, m: seq<byte>, i: Input)
    requires Observer(n, m) && i.b == ACK
    ensures Step(MasterDone(n, m).(state := PassiveReceiveMasterAcknowledge), i) == Start(Watching(n, m))
    ensures AwaitsSlave(Watching(n, m)) && Watching(n, m).passive.tel.master == m
  {
    hide WirePart, KindOf, MasterDbx, ValidMaster, CreateMaster, LogicalCrc;
    ForeignAccepted(n, m, EMPTY);
  }

  lemma ObserverDelivers(n: Node, m: seq<byte>, s: seq<byte>, i: Input)
    requires Observer(n, m) && ValidSlave(s) && i.b == ACK
    ensures Step(SlaveDone(Watching(n, m), s), i) == Effect(Settled(n), None, [Delivered(PassiveMessage, MasterSlave, m, s)])
  {
    hide WirePart, KindOf, MasterDbx, ValidMaster, ValidSlave, CreateMaster, CreateSlave, LogicalCrc, SlaveDbx, Part;
    ObserverAcknowledged(n, m, i);
    SlaveAccepted(Watching(n, m).passive.tel, s);
  }

  // ---------- The closed loop ----------

  /** Three distinct roles, agreed on the message and its reply; the listeners have received nothing yet. */
  predicate Scenario(t: Trio, m: seq<byte>, s: seq<byte>, reply: Buffer) {
    && Ready(t.active, m) && KindOf(m) == MasterSlave && Responder(t.reactive, m, s, reply) && Observer(t.passive, m)
    && t.reactive.active.master == EMPTY && t.reactive.active.slave == EMPTY
    && t.passive.active.master == EMPTY && t.passive.active.slave == EMPTY
  }

  /** The session from some byte on, when every node delivers the exchange and is idle at the end. */
  function Agreed(t: Trio, m: seq<byte>, s: seq<byte>, wire: seq<byte>): Session {
    Session(wire, true, Trio(Idled(t.active, PassiveReceiveMaster), Settled(t.reactive), Settled(t.passive)),
            [Delivered(ActiveMessage, MasterSlave, m, s)],
            [Delivered(ReactiveMessage, MasterSlave, m, s)] + Wish(t.reactive),
            [Delivered(PassiveMessage, MasterSlave, m, s)] + Wish(t.passive))
  }

  /** Exactly one of the three steps writes, and it writes c. */
  predicate SoleWriter(a: Effect, r: Effect, p: Effect, c: byte) {
    || (a.write == Some(c) && r.write == None && p.write == None)
    || (a.write == None && r.write == Some(c) && p.write == None)
  }

  /** One turn of the loop with exactly one writer. */
  lemma OneTurn(t: Trio, b: byte, v: Verdicts, reply: Buffer, fuel: nat, a: Effect, r: Effect, p: Effect, c: byte)
    requires fuel > 0 && a == StepActive(t, b, v) && r == StepReactive(t, b, v, reply) && p == StepPassive(t, b, v)
    requires SoleWriter(a, r, p, c)
    ensures Loop(t, b, v, reply, fuel) ==
            Append(Session([b], true, Trio(a.node, r.node, p.node), a.outs, r.outs, p.outs),
                   Loop(Trio(a.node, r.node, p.node), c, DECIDED, reply, fuel - 1))
  {
    hide Step, Arbitration.Line;
    SingleWriter(c);
    assert WritersOf(a, r, p) == [c];
  }

  lemma TurnSyn(t: Trio, m: seq<byte>, s: seq<byte>, reply: Buffer, fuel: nat)
    requires Scenario(t, m, s, reply)
    ensures Loop(Trio(Idled(t.active, ReleaseBus), Settled(t.reactive), Settled(t.passive)), SYN, DECIDED, reply, fuel) ==
            Session([SYN], true, Trio(Idled(t.active, PassiveReceiveMaster), Settled(t.reactive), Settled(t.passive)),
                    [], Wish(t.reactive), Wish(t.passive))
  {
    hide Step, Ready, Foreign, ValidMaster, ValidSlave, KindOf, Arbitration.Line;
    var u := Trio(Idled(t.active, ReleaseBus), Settled(t.reactive), Settled(t.passive));
    SenderDelivers(t.active, m, s, Input(SYN, Request.ObserveData, EMPTY));
    WaitingOnSyn(u.reactive, Input(SYN, Request.ObserveData, reply));
    WaitingOnSyn(u.passive, Input(SYN, Request.ObserveData, EMPTY));
    assert WritersOf(StepActive(u, SYN, DECIDED), StepReactive(u, SYN, DECIDED, reply), StepPassive(u, SYN, DECIDED)) == [];
  }

  /** The reply has been read and accepted; its acknowledge is on the line. */
  function ReplyRead(t: Trio, m: seq<byte>, s: seq<byte>, reply: Buffer): Trio
    requires ValidMaster(m) && ValidSlave(s)
  {
    Trio(ActiveSlaveDone(AwaitingReply(t.active, m), s),
         Answering(t.reactive, m, s, reply, |WirePart(s)|, ReactiveReceiveSlaveAcknowledge),
         SlaveDone(Watching(t.passive, m), s))
  }

  /** Byte k of the reply is on the line. */
  function ReplyTrio(t: Trio, m: seq<byte>, s: seq<byte>, reply: Buffer, k: nat): Trio
    requires ValidMaster(m) && ValidSlave(s) && k <= |WirePart(s)|
  {
    Trio(ActiveSlaveMid(AwaitingReply(t.active, m), s, k),
         Answering(t.reactive, m, s, reply, k, ReactiveSendSlave),
         SlaveMid(Watching(t.passive, m), s, k))
  }

  lemma TurnFinalAck(t: Trio, m: seq<byte>, s: seq<byte>, reply: Buffer, fuel: nat)
    requires Scenario(t, m, s, reply) && fuel >= 1
    ensures Loop(ReplyRead(t, m, s, reply), ACK, DECIDED, reply, fuel) == Agreed(t, m, s, [ACK, SYN])
  {
    hide Step, Ready, ActiveSlaveDone, AwaitingReply, Answering, SlaveDone, Watching, WirePart, ValidMaster, ValidSlave,
         Arbitration.Line, Loop;
    var u := ReplyRead(t, m, s, reply);
    var a, r, p := StepActive(u, ACK, DECIDED), StepReactive(u, ACK, DECIDED, reply), StepPassive(u, ACK, DECIDED);
    SenderDelivers(t.active, m, s, Input(ACK, Request.ObserveData, EMPTY));
    ResponderDelivers(t.reactive, m, s, reply, Input(ACK, Request.ObserveData, reply));
    ObserverDelivers(t.passive, m, s, Input(ACK, Request.ObserveData, EMPTY));
    OneTurn(u, ACK, DECIDED, reply, fuel, a, r, p, SYN);
    TurnSyn(t, m, s, reply, fuel - 1);
  }

  function Silent(b: byte, t: Trio): Session {
    Session([b], true, t, [], [], [])
  }

  lemma ReplyTurn(t: Trio, m: seq<byte>, s: seq<byte>, reply: Buffer, k: nat, fuel: nat)
    requires Scenario(t, m, s, reply) && k + 1 < |WirePart(s)| && fuel > 0
    ensures var w := WirePart(s);
            Loop(ReplyTrio(t, m, s, reply, k), w[k], DECIDED, reply, fuel) ==
            Append(Silent(w[k], ReplyTrio(t, m, s, reply, k + 1)),
                   Loop(ReplyTrio(t, m, s, reply, k + 1), w[k + 1], DECIDED, reply, fuel - 1))
  {
    hide Step, Ready, AwaitingReply, Answering, SlaveDone, SlaveMid, ActiveSlaveMid, ActiveSlaveDone, Watching, WirePart,
         ValidMaster, ValidSlave, Loop, Waiting, Foreign, KindOf, Append;
    var w := WirePart(s);
    var u := ReplyTrio(t, m, s, reply, k);
    var ia, ir := Input(w[k], Request.ObserveData, EMPTY), Input(w[k], Request.ObserveData, reply);
    SenderAcknowledged(t.active, m, Input(ACK, Request.ObserveData, EMPTY));
    ObserverAcknowledged(t.passive, m, Input(ACK, Request.ObserveData, EMPTY));
    ResponderSends(t.reactive, m, s, reply, k, ir);
    StepActiveSlaveMid(AwaitingReply(t.active, m), s, k, ia);
    StepSlaveMid(Watching(t.passive, m), s, k, ia);
    OneTurn(u, w[k], DECIDED, reply, fuel,
            StepActive(u, w[k], DECIDED), StepReactive(u, w[k], DECIDED, reply), StepPassive(u, w[k], DECIDED), w[k + 1]);
  }

  lemma ReplyTurnLast(t: Trio, m: seq<byte>, s: seq<byte>, reply: Buffer, fuel: nat)
    requires Scenario(t, m, s, reply) && |WirePart(s)| > 0 && fuel > 0
    ensures var w := WirePart(s);
            var k := |w| - 1;
            Loop(ReplyTrio(t, m, s, reply, k), w[k], DECIDED, reply, fuel) ==
            Append(Silent(w[k], ReplyRead(t, m, s, reply)),
                   Loop(ReplyRead(t, m, s, reply), ACK, DECIDED, reply, fuel - 1))
  {
    hide Step, Ready, AwaitingReply, Answering, SlaveDone, SlaveMid, ActiveSlaveMid, ActiveSlaveDone, Watching, WirePart,
         ValidMaster, ValidSlave, Loop, Waiting, Foreign, KindOf, Append;
    var w := WirePart(s);
    var k := |w| - 1;
    var u := ReplyTrio(t, m, s, reply, k);
    var ia, ir := Input(w[k], Request.ObserveData, EMPTY), Input(w[k], Request.ObserveData, reply);
    SenderAcknowledged(t.active, m, Input(ACK, Request.ObserveData, EMPTY));
    ObserverAcknowledged(t.passive, m, Input(ACK, Request.ObserveData, EMPTY));
    ResponderSends(t.reactive, m, s, reply, k, ir);
    StepActiveSlaveLast(AwaitingReply(t.active, m), s, ia);
    StepSlaveLast(Watching(t.passive, m), s, ia);
    OneTurn(u, w[k], DECIDED, reply, fuel,
            StepActive(u, w[k], DECIDED), StepReactive(u, w[k], DECIDED, reply), StepPassive(u, w[k], DECIDED), ACK);
  }

  lemma AppendSilent(b: byte, x: Trio, t: Trio, m: seq<byte>, s: seq<byte>, rest: seq<byte>)
    ensures Append(Silent(b, x), Agreed(t, m, s, rest)) == Agreed(t, m, s, [b] + rest)
  {
  }

  lemma {:induction false} TurnsOfReply(t: Trio, m: seq<byte>, s: seq<byte>, reply: Buffer, k: nat, fuel: nat)
    requires Scenario(t, m, s, reply) && k < |WirePart(s)| && fuel >= |WirePart(s)| - k + 1
    ensures Loop(ReplyTrio(t, m, s, reply, k), WirePart(s)[k], DECIDED, reply, fuel)
            == Agreed(t, m, s, WirePart(s)[k..] + [ACK, SYN])
    decreases |WirePart(s)| - k
  {
    hide ReplyTrio, ReplyRead, WirePart, ValidMaster, ValidSlave, Loop, Ready, Observer, Append, Agreed, Silent;
    var w := WirePart(s);
    if k + 1 < |w| {
      ReplyTurn(t, m, s, reply, k, fuel);
      TurnsOfReply(t, m, s, reply, k + 1, fuel - 1);
      AppendSilent(w[k], ReplyTrio(t, m, s, reply, k + 1), t, m, s, w[k + 1..] + [ACK, SYN]);
      assert [w[k]] + (w[k + 1..] + [ACK, SYN]) == w[k..] + [ACK, SYN];
    } else {
      ReplyTurnLast(t, m, s, reply, fuel);
      TurnFinalAck(t, m, s, reply, fuel - 1);
      AppendSilent(w[k], ReplyRead(t, m, s, reply), t, m, s, [ACK, SYN]);
      assert [w[k]] + [ACK, SYN] == w[k..] + [ACK, SYN];
    }
  }

  /** The master part has been read and accepted; its acknowledge is on the line. */
  function MasterRead(t: Trio, m: seq<byte>, s: seq<byte>, reply: Buffer): Trio
    requires ValidMaster(m)
  {
    Trio(Sent(t.active, m, false, |WirePart(m)|, ActiveReceiveMasterAcknowledge),
         Answering(t.reactive, m, s, reply, 0, ReactiveSendMasterPositiveAcknowledge),
         MasterDone(t.passive, m).(state := PassiveReceiveMasterAcknowledge))
  }

  /** Byte k of the master part is on the line. */
  function MasterTrio(t: Trio, m: seq<byte>, k: nat): Trio
    requires ValidMaster(m) && k <= |WirePart(m)|
  {
    Trio(Sent(t.active, m, false, k, ActiveSendMaster), MasterMid(t.reactive, m, k), MasterMid(t.passive, m, k))
  }

  lemma TurnFirstAck(t: Trio, m: seq<byte>, s: seq<byte>, reply: Buffer, fuel: nat)
    requires Scenario(t, m, s, reply) && fuel >= |WirePart(s)| + 2
    ensures Loop(MasterRead(t, m, s, reply), ACK, DECIDED, reply, fuel) == Agreed(t, m, s, [ACK] + (WirePart(s) + [ACK, SYN]))
  {
    hide Step, Ready, Sent, AwaitingReply, Answering, MasterDone, Watching, WirePart,
         ValidMaster, ValidSlave, Arbitration.Line, Loop;
    var w := WirePart(s);
    var u := MasterRead(t, m, s, reply);
    var a, r, p := StepActive(u, ACK, DECIDED), StepReactive(u, ACK, DECIDED, reply), StepPassive(u, ACK, DECIDED);
    SenderAcknowledged(t.active, m, Input(ACK, Request.ObserveData, EMPTY));
    ObserverAcknowledged(t.passive, m, Input(ACK, Request.ObserveData, EMPTY));
    ResponderStarts(t.reactive, m, s, reply, Input(ACK, Request.ObserveData, reply));
    OneTurn(u, ACK, DECIDED, reply, fuel, a, r, p, w[0]);
    SlaveMidStart(AwaitingReply(t.active, m), Watching(t.passive, m), s);
    assert ReplyTrio(t, m, s, reply, 0) == Trio(a.node, r.node, p.node);
    TurnsOfReply(t, m, s, reply, 0, fuel - 1);
    assert w[0..] == w;
  }

  lemma SlaveMidStart(a: Node, p: Node, s: seq<byte>)
    requires ValidSlave(s) && ActiveSlaveFresh(a.active) && AwaitsSlave(p)
    ensures ActiveSlaveMid(a, s, 0) == a && SlaveMid(p, s, 0) == p
  {
    hide WirePart, ValidSlave;
    assert WirePart(s)[..0] == [];
  }

  function WireFromMaster(m: seq<byte>, s: seq<byte>, k: nat): seq<byte>
    requires k <= |WirePart(m)|
  {
    WirePart(m)[k..] + ([ACK] + (WirePart(s) + [ACK, SYN]))
  }

  lemma MasterTurn(t: Trio, m: seq<byte>, s: seq<byte>, reply: Buffer, k: nat, fuel: nat)
    requires Scenario(t, m, s, reply) && 1 <= k < |WirePart(m)| && fuel > 0
    ensures var w := WirePart(m);
            Loop(MasterTrio(t, m, k), w[k], DECIDED, reply, fuel) ==
            if k + 1 < |w| then
              Append(Silent(w[k], MasterTrio(t, m, k + 1)), Loop(MasterTrio(t, m, k + 1), w[k + 1], DECIDED, reply, fuel - 1))
            else
              Append(Silent(w[k], MasterRead(t, m, s, reply)), Loop(MasterRead(t, m, s, reply), ACK, DECIDED, reply, fuel - 1))
  {
    hide Step, Ready, Sent, Answering, MasterDone, MasterMid, WirePart, ValidMaster, ValidSlave, Arbitration.Line, Loop,
         KindOf, Foreign;
    var w := WirePart(m);
    var u := MasterTrio(t, m, k);
    var a, r, p := StepActive(u, w[k], DECIDED), StepReactive(u, w[k], DECIDED, reply), StepPassive(u, w[k], DECIDED);
    var ia, ir := Input(w[k], Request.ObserveData, EMPTY), Input(w[k], Request.ObserveData, reply);
    ReadyCarries(t.active, m);
    EchoStep(t.active, m, false, k, ia);
    if k + 1 < |w| {
      StepMasterMid(t.reactive, m, k, ir);
      StepMasterMid(t.passive, m, k, ia);
      OneTurn(u, w[k], DECIDED, reply, fuel, a, r, p, w[k + 1]);
    } else {
      ResponderAccepts(t.reactive, m, s, reply, ir);
      ObserverAccepts(t.passive, m, ia);
      OneTurn(u, w[k], DECIDED, reply, fuel, a, r, p, ACK);
    }
  }

  lemma WireFromHere(m: seq<byte>, s: seq<byte>, k: nat)
    requires k < |WirePart(m)|
    ensures [WirePart(m)[k]] + WireFromMaster(m, s, k + 1) == WireFromMaster(m, s, k)
    ensures WireFromMaster(m, s, |WirePart(m)|) == [ACK] + (WirePart(s) + [ACK, SYN])
  {
    hide WirePart;
    var w := WirePart(m);
    assert w[k..] == [w[k]] + w[k + 1..];
  }

  lemma {:induction false} TurnsOfMaster(t: Trio, m: seq<byte>, s: seq<byte>, reply: Buffer, k: nat, fuel: nat)
    requires Scenario(t, m, s, reply) && 1 <= k < |WirePart(m)| && fuel >= |WirePart(m)| - k + |WirePart(s)| + 2
    ensures Loop(MasterTrio(t, m, k), WirePart(m)[k], DECIDED, reply, fuel) == Agreed(t, m, s, WireFromMaster(m, s, k))
    decreases |WirePart(m)| - k
  {
    hide MasterTrio, MasterRead, WirePart, ValidMaster, ValidSlave, Loop, Ready, Observer, Append, Agreed, Silent, WireFromMaster;
    var w := WirePart(m);
    MasterTurn(t, m, s, reply, k, fuel);
    WireFromHere(m, s, k);
    var rest := WireFromMaster(m, s, k + 1);
    if k + 1 < |w| {
      TurnsOfMaster(t, m, s, reply, k + 1, fuel - 1);
      AppendSilent(w[k], MasterTrio(t, m, k + 1), t, m, s, rest);
    } else {
      TurnFirstAck(t, m, s, reply, fuel - 1);
      AppendSilent(w[k], MasterRead(t, m, s, reply), t, m, s, rest);
    }
  }

  // ---------- From the byte that decides the arbitration ----------

  /** A listener may itself have contended; then the deciding byte makes it give up its message. */
  function Joined(n: Node): Node {
    if n.state == RequestBus then Defeated(n) else n
  }

  function GivesUp(n: Node): seq<Output> {
    if n.state == RequestBus then [Lost] else []
  }

  /** A listener that waits, or that loses the arbitration with this verdict. */
  predicate Listener(n: Node, result: Request.RequestResult) {
    n.state == RequestBus ==> Contending(n) && IsLoss(result)
  }

  function JoinedTrio(t: Trio): Trio {
    Trio(t.active, Joined(t.reactive), Joined(t.passive))
  }

  /** The sender wins, in either round; each listener waits or loses. */
  predicate Decision(t: Trio, v: Verdicts) {
    IsWin(v.active) && Listener(t.reactive, v.reactive) && Listener(t.passive, v.passive)
  }

  /**
   * For every valid message and every valid reply, whichever nodes contended and in whichever round the
   * sender won: the wire carries the stuffed master part, ACK, the stuffed reply, ACK and SYN, each byte
   * written by exactly one node; every node delivers exactly one master-slave telegram, all with the same
   * two parts; and all three end idle.
   */
  lemma ThreePartyAgreement(t: Trio, m: seq<byte>, s: seq<byte>, reply: Buffer, v: Verdicts, fuel: nat)
    requires Scenario(JoinedTrio(t), m, s, reply) && Decision(t, v) && fuel >= |WirePart(m)| + |WirePart(s)| + 3
    ensures var session := Loop(t, m[0], v, reply, fuel);
            && session.wire == WirePart(m) + [ACK] + WirePart(s) + [ACK, SYN] && session.exclusive
            && session.activeOuts == [Won, Delivered(ActiveMessage, MasterSlave, m, s)]
            && session.reactiveOuts ==
               GivesUp(t.reactive) + [Delivered(ReactiveMessage, MasterSlave, m, s)] + Wish(Joined(t.reactive))
            && session.passiveOuts ==
               GivesUp(t.passive) + [Delivered(PassiveMessage, MasterSlave, m, s)] + Wish(Joined(t.passive))
            && session.nodes ==
               Trio(Idled(t.active, PassiveReceiveMaster), Settled(Joined(t.reactive)), Settled(Joined(t.passive)))
  {
    hide MasterTrio, WirePart, Loop, KindOf, Wish, WireFromMaster, Scenario, Decision, Joined, GivesUp, Settled, Idled;
    ScenarioMessage(JoinedTrio(t), m, s, reply);
    WholeSession(t, m, s, reply, v, fuel);
    WholeWire(m, s);
  }

  lemma ScenarioMessage(t: Trio, m: seq<byte>, s: seq<byte>, reply: Buffer)
    requires Scenario(t, m, s, reply)
    ensures ValidMaster(m)
  {
  }

  lemma WholeSession(t: Trio, m: seq<byte>, s: seq<byte>, reply: Buffer, v: Verdicts, fuel: nat)
    requires Scenario(JoinedTrio(t), m, s, reply) && Decision(t, v) && fuel >= |WirePart(m)| + |WirePart(s)| + 3
    ensures |WirePart(m)| >= 6 && |m| > 0
    ensures Loop(t, m[0], v, reply, fuel) ==
            Append(Session([m[0]], true, MasterTrio(JoinedTrio(t), m, 1), [Won], GivesUp(t.reactive), GivesUp(t.passive)),
                   Agreed(JoinedTrio(t), m, s, WireFromMaster(m, s, 1)))
  {
    hide Step, MasterTrio, WirePart, ValidSlave, Loop, Observer, Agreed, Decision, Joined, GivesUp;
    FirstTurn(t, m, s, reply, v, fuel);
    TurnsOfMaster(JoinedTrio(t), m, s, reply, 1, fuel - 1);
  }

  lemma WholeWire(m: seq<byte>, s: seq<byte>)
    requires ValidMaster(m)
    ensures |WirePart(m)| >= 6
    ensures [m[0]] + WireFromMaster(m, s, 1) == WirePart(m) + [ACK] + WirePart(s) + [ACK, SYN]
  {
    hide WirePart, IsMaster;
    MasterOpens(m);
    var w := WirePart(m);
    assert w == [w[0]] + w[1..];
  }

  lemma ListenerOpens(n: Node, m: seq<byte>, i: Input)
    requires Listener(n, i.result) && Waiting(Joined(n)) && ValidMaster(m) && i.b == m[0]
    ensures |WirePart(m)| >= 6
    ensures Step(n, i) == Effect(MasterMid(Joined(n), m, 1), None, GivesUp(n))
  {
    hide Step, WirePart, Waiting, ValidMaster, MasterMid, Contending;
    if n.state == RequestBus {
      LosesOneByteIn(n, m, i);
    } else {
      WaitsOneByteIn(n, m, i);
    }
  }

  lemma FirstTurn(t: Trio, m: seq<byte>, s: seq<byte>, reply: Buffer, v: Verdicts, fuel: nat)
    requires Scenario(JoinedTrio(t), m, s, reply) && Decision(t, v) && fuel > 0
    ensures |WirePart(m)| >= 6 && m[0] == WirePart(m)[0]
    ensures Loop(t, m[0], v, reply, fuel) ==
            Append(Session([m[0]], true, MasterTrio(JoinedTrio(t), m, 1), [Won], GivesUp(t.reactive), GivesUp(t.passive)),
                   Loop(MasterTrio(JoinedTrio(t), m, 1), WirePart(m)[1], DECIDED, reply, fuel - 1))
  {
    hide Step, Sent, Ready, MasterMid, WirePart, ValidSlave, Arbitration.Line, Loop, KindOf, IsMaster, Foreign, Joined, GivesUp,
         Listener, IsWin;
    MasterOpens(m);
    SenderWins(t.active, m, Input(m[0], v.active, EMPTY));
    ListenerOpens(t.reactive, m, Input(m[0], v.reactive, reply));
    ListenerOpens(t.passive, m, Input(m[0], v.passive, EMPTY));
    OneTurn(t, m[0], v, reply, fuel, StepActive(t, m[0], v), StepReactive(t, m[0], v, reply), StepPassive(t, m[0], v),
            WirePart(m)[1]);
  }
}
