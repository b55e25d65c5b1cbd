/**
 * The protocol automaton: what one byte does to a node that sends as master, answers as slave and
 * observes third parties. Callbacks are collected as outputs, the deferred bus write as at most one byte.
 */
module Handler {
  import opened Bytes
  import opened Stuffing
  import opened Crc
  import opened Telegram
  import Request

  datatype HandlerState =
    | PassiveReceiveMaster | PassiveReceiveMasterAcknowledge
    | PassiveReceiveSlave | PassiveReceiveSlaveAcknowledge
    | ReactiveSendMasterPositiveAcknowledge | ReactiveSendMasterNegativeAcknowledge
    | ReactiveSendSlave | ReactiveReceiveSlaveAcknowledge
    | RequestBus
    | ActiveSendMaster | ActiveReceiveMasterAcknowledge | ActiveReceiveSlave
    | ActiveSendSlavePositiveAcknowledge | ActiveSendSlaveNegativeAcknowledge
    | ReleaseBus

  datatype MessageType = PassiveMessage | ReactiveMessage | ActiveMessage

  datatype ProtocolError =
    | ErrorPassiveMaster | ErrorPassiveMasterAck | ErrorPassiveSlave | ErrorPassiveSlaveAck
    | ErrorReactiveMaster | ErrorReactiveMasterAck | ErrorReactiveSlave | ErrorReactiveSlaveAck
    | ErrorActiveMasterEcho | ErrorActiveMasterAck | ErrorActiveSlave | ErrorActiveSlaveAck
    | CheckPassiveBuffers | CheckActiveBuffers | IllegalFsmTransition

  /** What the handler tells the outside in one step. */
  datatype Output =
    | Delivered(role: MessageType, kind: TelegramType, master: seq<byte>, slave: seq<byte>)
    | Failed(error: ProtocolError, detail: SequenceState, master: seq<byte>, slave: seq<byte>)
    | Won | Lost
    | BusWanted

  datatype Passive = Passive(
    tel: Telegram,
    master: Buffer, masterDbx: nat, masterRepeated: bool,
    slave: Buffer, slaveDbx: nat, slaveIndex: nat, slaveRepeated: bool)

  datatype Active = Active(
    message: bool, tel: Telegram,
    master: Buffer, masterIndex: nat, masterRepeated: bool,
    slave: Buffer, slaveDbx: nat, slaveRepeated: bool)

  const IDLE_PASSIVE := Passive(CLEARED, EMPTY, 0, false, EMPTY, 0, 0, false)
  const IDLE_ACTIVE := Active(false, CLEARED, EMPTY, 0, false, EMPTY, 0, false)

  datatype Node = Node(state: HandlerState, source: byte, target: byte, passive: Passive, active: Active)

  /** The transition masks. */
  predicate Allowed(from: HandlerState, to: HandlerState) {
    || to == PassiveReceiveMaster
    || to == RequestBus
    || match from {
         case PassiveReceiveMaster =>
           to == PassiveReceiveMasterAcknowledge || to == ReactiveSendMasterPositiveAcknowledge ||
           to == ReactiveSendMasterNegativeAcknowledge || to == ReleaseBus
         case PassiveReceiveMasterAcknowledge => to == PassiveReceiveSlave
         case PassiveReceiveSlave => to == PassiveReceiveSlaveAcknowledge
         case PassiveReceiveSlaveAcknowledge => to == PassiveReceiveSlave
         case ReactiveSendMasterPositiveAcknowledge => to == ReactiveSendSlave
         case ReactiveSendMasterNegativeAcknowledge => false
         case ReactiveSendSlave => to == ReactiveReceiveSlaveAcknowledge
         case ReactiveReceiveSlaveAcknowledge => to == ReactiveSendSlave
         case RequestBus => to == ActiveSendMaster || to == ReleaseBus
         case ActiveSendMaster => to == ActiveReceiveMasterAcknowledge || to == ReleaseBus
         case ActiveReceiveMasterAcknowledge =>
           to == ActiveSendMaster || to == ActiveReceiveSlave || to == ReleaseBus
         case ActiveReceiveSlave =>
           to == ActiveSendSlavePositiveAcknowledge || to == ActiveSendSlaveNegativeAcknowledge
         case ActiveSendSlavePositiveAcknowledge => to == ReleaseBus
         case ActiveSendSlaveNegativeAcknowledge => to == ActiveReceiveSlave || to == ReleaseBus
         case ReleaseBus => false
       }
  }

  /** The state of a step in progress: the node, the pending write, the outputs so far. */
  datatype Effect = Effect(node: Node, write: Option<byte>, outs: seq<Output>) {
    function Go(next: HandlerState): Effect {
      if next == node.state then this
      else if Allowed(node.state, next) then this.(node := node.(state := next))
      else
        this.(node := node.(state := PassiveReceiveMaster),
              outs := outs + [Failed(IllegalFsmTransition, SeqOk, [], [])])
    }

    function Write(b: byte): Effect {
      this.(write := Some(b))
    }

    function Emit(o: Output): Effect {
      this.(outs := outs + [o])
    }

    function SetPassive(p: Passive): Effect {
      this.(node := node.(passive := p))
    }

    function SetActive(a: Active): Effect {
      this.(node := node.(active := a))
    }

    function FailPassive(error: ProtocolError, detail: SequenceState): Effect {
      Emit(Failed(error, detail, node.passive.master.bytes, node.passive.slave.bytes))
    }

    function FailActive(error: ProtocolError, detail: SequenceState): Effect {
      Emit(Failed(error, detail, node.active.master.bytes, node.active.slave.bytes))
    }

    function Deliver(role: MessageType, kind: TelegramType): Effect {
      Emit(Delivered(role, kind, node.passive.tel.master, node.passive.tel.slave))
    }
  }

  /** One byte with the arbitration result it produced, and what the reactive callback would answer. */
  datatype Input = Input(b: byte, result: Request.RequestResult, reply: Buffer)

  /** The unchecked read of element 0; on an empty buffer it yields whatever is stored, here 0. */
  function First(b: Buffer): byte {
    if b.bytes != [] then b.bytes[0] else 0
  }

  // ---------- Passive ----------

  /** Header plausibility before a byte is buffered. */
  predicate Implausible(len: nat, b: byte) {
    if len == 0 then !IsMaster(b)
    else if len == 1 then !IsTarget(b)
    else if len == 2 || len == 3 then NeedsEscape(b)
    else len == 4 && b > MAX_DATA_BYTES
  }

  predicate AddressedTo(s: seq<byte>, a: byte) {
    |s| >= 2 && s[1] == a
  }

  /** The wire form of a reply that createSlave accepted. */
  function ReplyBuffer(t: Telegram): Buffer {
    Buffer(Stuff(t.slave + [t.slaveCrc]), true)
  }

  /** A complete master part addressed to our slave: ask the callback and answer. */
  function Respond(e: Effect, reply: Buffer): Effect {
    var p := e.node.passive;
    var s := reply.Reduced();
    var tel := CreateSlave(p.tel, s);
    if tel.slaveState == SeqOk then
      e.SetPassive(p.(tel := tel, slave := ReplyBuffer(tel)))
       .Write(ACK).Go(ReactiveSendMasterPositiveAcknowledge)
    else
      e.SetPassive(p.(tel := tel, slave := Buffer(s, false)))
       .FailPassive(ErrorReactiveSlave, tel.slaveState)
       .SetPassive(IDLE_PASSIVE).Write(SYN).Go(ReleaseBus)
  }

  function MasterAccepted(e: Effect, reply: Buffer): Effect {
    var p := e.node.passive;
    if p.tel.kind == Broadcast then e.Deliver(PassiveMessage, Broadcast).SetPassive(IDLE_PASSIVE)
    else if AddressedTo(p.master.bytes, e.node.source) then
      e.Write(ACK).Go(ReactiveSendMasterPositiveAcknowledge)
    else if AddressedTo(p.master.bytes, e.node.target) then Respond(e, reply)
    else e.Go(PassiveReceiveMasterAcknowledge)
  }

  function MasterRejected(e: Effect): Effect {
    var p := e.node.passive;
    if AddressedTo(p.master.bytes, e.node.source) || AddressedTo(p.master.bytes, e.node.target) then
      e.FailPassive(ErrorReactiveMaster, p.tel.masterState)
       .SetPassive(p.(tel := CLEARED, master := EMPTY, masterDbx := 0))
       .Write(NAK).Go(ReactiveSendMasterNegativeAcknowledge)
    else if p.tel.kind == MasterMaster || p.tel.kind == MasterSlave then e.Go(PassiveReceiveMasterAcknowledge)
    else e.FailPassive(ErrorPassiveMaster, p.tel.masterState).SetPassive(IDLE_PASSIVE)
  }

  /** The length test fired: the buffer is reduced in place and judged. */
  function MasterComplete(e: Effect, reply: Buffer): Effect {
    var p := e.node.passive;
    var s := p.master.Reduced();
    var tel := CreateMaster(p.tel, s);
    var judged := e.SetPassive(p.(tel := tel, master := Buffer(s, false)));
    if tel.masterState == SeqOk then MasterAccepted(judged, reply) else MasterRejected(judged)
  }

  function CheckBuffers(e: Effect): Effect {
    var p, a := e.node.passive, e.node.active;
    var e1 :=
      if p.master.bytes != [] || p.slave.bytes != [] then
        e.FailPassive(CheckPassiveBuffers, if p.tel.masterState != SeqOk then p.tel.slaveState else p.tel.masterState)
         .SetPassive(IDLE_PASSIVE)
      else e;
    if a.master.bytes != [] || a.slave.bytes != [] then
      e1.FailActive(CheckActiveBuffers, if a.tel.masterState != SeqOk then a.tel.slaveState else a.tel.masterState)
        .SetActive(IDLE_ACTIVE)
    else e1
  }

  /** The passive master buffer after one more byte, with the running escape count. */
  function PushMaster(p: Passive, b: byte): Passive {
    var m := p.master.Push(b);
    var dbx := if |m.bytes| == 5 then b else p.masterDbx;
    p.(master := m, masterDbx := dbx + if b == EXT then 1 else 0)
  }

  function OnPassiveReceiveMaster(e: Effect, b: byte, reply: Buffer): Effect {
    if b == SYN then
      var checked := CheckBuffers(e);
      if checked.node.active.message then checked.Emit(BusWanted) else checked
    else if Implausible(|e.node.passive.master.bytes|, b) then e.SetPassive(IDLE_PASSIVE)
    else
      var p := PushMaster(e.node.passive, b);
      if |p.master.bytes| >= 5 + p.masterDbx + 1 then MasterComplete(e.SetPassive(p), reply)
      else e.SetPassive(p)
  }

  function OnPassiveReceiveMasterAcknowledge(e: Effect, b: byte): Effect {
    var p := e.node.passive;
    if b == ACK then
      if p.tel.kind == MasterMaster then
        e.Deliver(PassiveMessage, MasterMaster).SetPassive(IDLE_PASSIVE).Go(PassiveReceiveMaster)
      else e.Go(PassiveReceiveSlave)
    else if b != SYN && !p.masterRepeated then
      e.SetPassive(p.(masterRepeated := true, tel := CLEARED, master := EMPTY, masterDbx := 0))
       .Go(PassiveReceiveMaster)
    else
      e.FailPassive(ErrorPassiveMasterAck, p.tel.masterState).SetPassive(IDLE_PASSIVE).Go(PassiveReceiveMaster)
  }

  function PushSlave(p: Passive, b: byte): Passive {
    var s := p.slave.Push(b);
    var dbx := if |s.bytes| == 1 then b else p.slaveDbx;
    p.(slave := s, slaveDbx := dbx + if b == EXT then 1 else 0)
  }

  function OnPassiveReceiveSlave(e: Effect, b: byte): Effect {
    if e.node.passive.slave.bytes == [] && b > MAX_DATA_BYTES then e.SetPassive(IDLE_PASSIVE)
    else
      var p := PushSlave(e.node.passive, b);
      if |p.slave.bytes| >= 1 + p.slaveDbx + 1 then
        var s := p.slave.Reduced();
        var tel := CreateSlave(p.tel, s);
        var judged := e.SetPassive(p.(tel := tel, slave := Buffer(s, false)));
        (if tel.slaveState != SeqOk then judged.FailPassive(ErrorPassiveSlave, tel.slaveState) else judged)
          .Go(PassiveReceiveSlaveAcknowledge)
      else e.SetPassive(p)
  }

  function OnPassiveReceiveSlaveAcknowledge(e: Effect, b: byte): Effect {
    var p := e.node.passive;
    if b == ACK then e.Deliver(PassiveMessage, MasterSlave).SetPassive(IDLE_PASSIVE).Go(PassiveReceiveMaster)
    else if b == NAK && !p.slaveRepeated then
      e.SetPassive(p.(slaveRepeated := true, slave := EMPTY, slaveDbx := 0)).Go(PassiveReceiveSlave)
    else
      e.FailPassive(ErrorPassiveSlaveAck, p.tel.slaveState).SetPassive(IDLE_PASSIVE).Go(PassiveReceiveMaster)
  }

  // ---------- Reactive ----------

  function OnReactiveSendMasterPositiveAcknowledge(e: Effect): Effect {
    var p := e.node.passive;
    if p.tel.kind == MasterMaster then
      e.Deliver(ReactiveMessage, MasterMaster).SetPassive(IDLE_PASSIVE).Go(PassiveReceiveMaster)
    else if p.slaveIndex >= |p.slave.bytes| then
      e.FailPassive(IllegalFsmTransition, p.tel.masterState).SetPassive(IDLE_PASSIVE).Go(PassiveReceiveMaster)
    else e.Write(p.slave.bytes[p.slaveIndex]).Go(ReactiveSendSlave)
  }

  function OnReactiveSendMasterNegativeAcknowledge(e: Effect): Effect {
    var p := e.node.passive;
    if !p.masterRepeated then e.Go(PassiveReceiveMaster).SetPassive(p.(masterRepeated := true))
    else e.Go(PassiveReceiveMaster).FailPassive(ErrorReactiveMasterAck, p.tel.masterState).SetPassive(IDLE_PASSIVE)
  }

  function OnReactiveSendSlave(e: Effect): Effect {
    var p := e.node.passive;
    var e1 := e.SetPassive(p.(slaveIndex := p.slaveIndex + 1));
    if p.slaveIndex + 1 >= |p.slave.bytes| then e1.Go(ReactiveReceiveSlaveAcknowledge)
    else e1.Write(p.slave.bytes[p.slaveIndex + 1])
  }

  function OnReactiveReceiveSlaveAcknowledge(e: Effect, b: byte): Effect {
    var p := e.node.passive;
    if b == ACK then e.Deliver(ReactiveMessage, MasterSlave).SetPassive(IDLE_PASSIVE).Go(PassiveReceiveMaster)
    else if b == NAK && !p.slaveRepeated then
      e.SetPassive(p.(slaveRepeated := true, slaveIndex := 0)).Write(First(p.slave)).Go(ReactiveSendSlave)
    else
      e.FailPassive(ErrorReactiveSlaveAck, p.tel.slaveState).SetPassive(IDLE_PASSIVE).Go(PassiveReceiveMaster)
  }

  // ---------- Arbitration outcome ----------

  /** The active master part in wire form, CRC included. */
  function MasterBuffer(t: Telegram): Buffer {
    Buffer(Stuff(t.master + [t.masterCrc]), true)
  }

  function ArbitrationWon(e: Effect): Effect {
    var a := e.node.active;
    var m := MasterBuffer(a.tel);
    if |m.bytes| > 1 then
      e.Emit(Won).SetActive(a.(master := m, masterIndex := 1)).Write(m.bytes[1]).Go(ActiveSendMaster)
    else
      e.Emit(Lost).SetActive(a.(message := false, tel := CLEARED, master := EMPTY)).Write(SYN).Go(ReleaseBus)
  }

  function ArbitrationFailed(e: Effect): Effect {
    e.Emit(Lost).SetActive(e.node.active.(message := false, tel := CLEARED, master := EMPTY))
     .Go(PassiveReceiveMaster)
  }

  /** The byte read belongs to the winner: it opens the passive master part. */
  function ArbitrationLost(e: Effect, b: byte): Effect {
    var p := e.node.passive;
    ArbitrationFailed(e.SetPassive(p.(master := p.master.Push(b))))
  }

  function OnRequestBus(e: Effect, b: byte, result: Request.RequestResult): Effect {
    match result
    case ObserveSyn | ObserveData | RetryError => ArbitrationFailed(e)
    case FirstWon | SecondWon => ArbitrationWon(e)
    case FirstLost | FirstError | SecondLost | SecondError => ArbitrationLost(e, b)
    case FirstSyn | FirstRetry | RetrySyn => e
  }

  // ---------- Active ----------

  function OnActiveSendMaster(e: Effect, b: byte): Effect {
    var a := e.node.active;
    if a.masterIndex >= |a.master.bytes| then
      e.FailActive(IllegalFsmTransition, a.tel.masterState).SetActive(IDLE_ACTIVE).Go(PassiveReceiveMaster)
    else if b != a.master.bytes[a.masterIndex] then
      e.FailActive(ErrorActiveMasterEcho, a.tel.masterState).SetActive(IDLE_ACTIVE).Go(PassiveReceiveMaster)
    else
      var e1 := e.SetActive(a.(masterIndex := a.masterIndex + 1));
      if a.masterIndex + 1 >= |a.master.bytes| then
        if a.tel.kind == Broadcast then
          e1.Emit(Delivered(ActiveMessage, Broadcast, a.master.bytes, a.slave.bytes))
            .SetActive(IDLE_ACTIVE).Write(SYN).Go(ReleaseBus)
        else e1.Go(ActiveReceiveMasterAcknowledge)
      else e1.Write(a.master.bytes[a.masterIndex + 1])
  }

  function OnActiveReceiveMasterAcknowledge(e: Effect, b: byte): Effect {
    var a := e.node.active;
    if b == ACK then
      if a.tel.kind == MasterMaster then
        e.Emit(Delivered(ActiveMessage, MasterMaster, a.master.bytes, a.slave.bytes))
         .SetActive(IDLE_ACTIVE).Write(SYN).Go(ReleaseBus)
      else e.Go(ActiveReceiveSlave)
    else if b == NAK && !a.masterRepeated then
      e.SetActive(a.(masterRepeated := true, masterIndex := 0)).Write(First(a.master)).Go(ActiveSendMaster)
    else
      e.FailActive(ErrorActiveMasterAck, a.tel.masterState).SetActive(IDLE_ACTIVE).Write(SYN).Go(ReleaseBus)
  }

  function PushActiveSlave(a: Active, b: byte): Active {
    var s := a.slave.Push(b);
    var dbx := if |s.bytes| == 1 then b else a.slaveDbx;
    a.(slave := s, slaveDbx := dbx + if b == EXT then 1 else 0)
  }

  /** The length test fired: the reply is reduced in place and judged. */
  function ActiveSlaveComplete(e: Effect): Effect {
    var a := e.node.active;
    var s := a.slave.Reduced();
    var tel := CreateSlave(a.tel, s);
    var judged := e.SetActive(a.(tel := tel, slave := Buffer(s, false)));
    if tel.slaveState == SeqOk then judged.Write(ACK).Go(ActiveSendSlavePositiveAcknowledge)
    else
      judged.FailActive(ErrorActiveSlave, tel.slaveState)
            .SetActive(judged.node.active.(slave := EMPTY, slaveDbx := 0))
            .Write(NAK).Go(ActiveSendSlaveNegativeAcknowledge)
  }

  function OnActiveReceiveSlave(e: Effect, b: byte): Effect {
    var a0 := e.node.active;
    if a0.slave.bytes == [] && b > MAX_DATA_BYTES then
      e.Emit(Failed(ErrorActiveSlave, ErrDataByte, a0.master.bytes, []))
       .SetActive(a0.(slave := EMPTY, slaveDbx := 0)).Write(NAK).Go(ActiveSendSlaveNegativeAcknowledge)
    else
      var a := PushActiveSlave(a0, b);
      if |a.slave.bytes| >= 1 + a.slaveDbx + 1 then ActiveSlaveComplete(e.SetActive(a)) else e.SetActive(a)
  }

  function OnActiveSendSlavePositiveAcknowledge(e: Effect): Effect {
    e.Emit(Delivered(ActiveMessage, MasterSlave, e.node.active.tel.master, e.node.active.tel.slave))
     .SetActive(IDLE_ACTIVE).Write(SYN).Go(ReleaseBus)
  }

  function OnActiveSendSlaveNegativeAcknowledge(e: Effect): Effect {
    var a := e.node.active;
    if !a.slaveRepeated then e.SetActive(a.(slaveRepeated := true)).Go(ActiveReceiveSlave)
    else
      e.FailActive(ErrorActiveSlaveAck, a.tel.slaveState).SetActive(IDLE_ACTIVE).Write(SYN).Go(ReleaseBus)
  }

  function OnReleaseBus(e: Effect): Effect {
    e.Go(PassiveReceiveMaster)
  }

  // ---------- One byte, and the other entry points ----------

  function Step(n: Node, i: Input): Effect {
    var e := Effect(n, None, []);
    match n.state
    case PassiveReceiveMaster => OnPassiveReceiveMaster(e, i.b, i.reply)
    case PassiveReceiveMasterAcknowledge => OnPassiveReceiveMasterAcknowledge(e, i.b)
    case PassiveReceiveSlave => OnPassiveReceiveSlave(e, i.b)
    case PassiveReceiveSlaveAcknowledge => OnPassiveReceiveSlaveAcknowledge(e, i.b)
    case ReactiveSendMasterPositiveAcknowledge => OnReactiveSendMasterPositiveAcknowledge(e)
    case ReactiveSendMasterNegativeAcknowledge => OnReactiveSendMasterNegativeAcknowledge(e)
    case ReactiveSendSlave => OnReactiveSendSlave(e)
    case ReactiveReceiveSlaveAcknowledge => OnReactiveReceiveSlaveAcknowledge(e, i.b)
    case RequestBus => OnRequestBus(e, i.b, i.result)
    case ActiveSendMaster => OnActiveSendMaster(e, i.b)
    case ActiveReceiveMasterAcknowledge => OnActiveReceiveMasterAcknowledge(e, i.b)
    case ActiveReceiveSlave => OnActiveReceiveSlave(e, i.b)
    case ActiveSendSlavePositiveAcknowledge => OnActiveSendSlavePositiveAcknowledge(e)
    case ActiveSendSlaveNegativeAcknowledge => OnActiveSendSlaveNegativeAcknowledge(e)
    case ReleaseBus => OnReleaseBus(e)
  }

  /** sendActiveMessage: accepted only when no message is pending and it is a valid master part. */
  function SendActiveMessage(n: Node, message: seq<byte>): Node {
    if n.active.message || message == [] then n
    else
      var tel := CreateMaster(n.active.tel, [n.source] + message);
      n.(active := n.active.(tel := tel, message := tel.masterState == SeqOk))
  }

  /** onBusRequested: the address has been written; the next byte decides the arbitration. */
  function OnBusRequested(n: Node): Node {
    if n.active.message && n.state != RequestBus then Effect(n, None, []).Go(RequestBus).node else n
  }

  function ResetNode(n: Node): Node {
    n.(state := PassiveReceiveMaster, passive := IDLE_PASSIVE, active := IDLE_ACTIVE)
  }

  function InitialNode(source: byte): Node {
    var s := if IsMaster(source) then source else 0xFF;
    Node(PassiveReceiveMaster, s, SlaveOf(s), IDLE_PASSIVE, IDLE_ACTIVE)
  }
}
