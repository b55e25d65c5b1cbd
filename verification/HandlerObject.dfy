/** The handler as an object: fifteen state methods that update its fields, one byte at a time. */
module HandlerObject {
  import opened Bytes
  import opened Stuffing
  import opened Crc
  import opened Telegram
  import opened Handler
  import opened HandlerInvariant
  import Steps = HandlerSteps
  import Runs = HandlerRuns
  import R = Request

  class HandlerMachine {
    var state: HandlerState
    var source: byte
    var target: byte
    var pendingWrite: Option<byte>

    /** The passive_ and active_ members of the source, one record each. */
    var passive: Passive
    var active: Active

    /** The callbacks of the current step. */
    ghost var outs: seq<Output>

    function Value(): Node
      reads this
    {
      Node(state, source, target, passive, active)
    }

    /** The step in progress. */
    ghost function Now(): Effect
      reads this
    {
      Effect(Value(), pendingWrite, outs)
    }

    constructor (address: byte)
      ensures Value() == InitialNode(address) && Inv(Value())
    {
      state := PassiveReceiveMaster;
      source := if IsMaster(address) then address else 0xFF;
      target := SlaveOf(if IsMaster(address) then address else 0xFF);
      pendingWrite := None;
      passive, active := IDLE_PASSIVE, IDLE_ACTIVE;
      outs := [];
      new;
      hide Exts;
    }

    // ---------- Helpers ----------

    method TransitionTo(next: HandlerState)
      modifies this
      ensures Now() == old(Now()).Go(next)
    {
      hide Allowed;
      if next == state {
        return;
      }
      if Allowed(state, next) {
        state := next;
      } else {
        CallOnError(IllegalFsmTransition, SeqOk, [], []);
        state := PassiveReceiveMaster;
      }
    }

    method CallWrite(b: byte)
      modifies this
      ensures Now() == old(Now()).Write(b)
    {
      pendingWrite := Some(b);
    }

    method CallOnTelegram(role: MessageType, kind: TelegramType, master: seq<byte>, slave: seq<byte>)
      modifies this
      ensures Now() == old(Now()).Emit(Delivered(role, kind, master, slave))
    {
      outs := outs + [Delivered(role, kind, master, slave)];
    }

    method CallOnError(error: ProtocolError, detail: SequenceState, master: seq<byte>, slave: seq<byte>)
      modifies this
      ensures Now() == old(Now()).Emit(Failed(error, detail, master, slave))
    {
      outs := outs + [Failed(error, detail, master, slave)];
    }

    method CallPassiveReset()
      modifies this
      ensures Now() == old(Now()).SetPassive(IDLE_PASSIVE)
    {
      passive := IDLE_PASSIVE;
    }

    method CallActiveReset()
      modifies this
      ensures Now() == old(Now()).SetActive(IDLE_ACTIVE)
    {
      active := IDLE_ACTIVE;
    }

    method CheckPassive()
      modifies this
      ensures var p := old(passive);
              Now() == if p.master.bytes != [] || p.slave.bytes != [] then
                old(Now()).FailPassive(CheckPassiveBuffers,
                                       if p.tel.masterState != SeqOk then p.tel.slaveState else p.tel.masterState)
                          .SetPassive(IDLE_PASSIVE)
              else old(Now())
    {
      if |passive.master.bytes| > 0 || |passive.slave.bytes| > 0 {
        var detail := passive.tel.masterState;
        if detail != SeqOk {
          detail := passive.tel.slaveState;
        }
        CallOnError(CheckPassiveBuffers, detail, passive.master.bytes, passive.slave.bytes);
        CallPassiveReset();
      }
    }

    method CheckActive()
      modifies this
      ensures var a := old(active);
              Now() == if a.master.bytes != [] || a.slave.bytes != [] then
                old(Now()).FailActive(CheckActiveBuffers,
                                      if a.tel.masterState != SeqOk then a.tel.slaveState else a.tel.masterState)
                          .SetActive(IDLE_ACTIVE)
              else old(Now())
    {
      if |active.master.bytes| > 0 || |active.slave.bytes| > 0 {
        var detail := active.tel.masterState;
        if detail != SeqOk {
          detail := active.tel.slaveState;
        }
        CallOnError(CheckActiveBuffers, detail, active.master.bytes, active.slave.bytes);
        CallActiveReset();
      }
    }

    // ---------- Passive ----------

    /** Returns whether the handler asks for the bus. */
    method RunPassiveReceiveMaster(b: byte, reply: Buffer) returns (wantsBus: bool)
      requires state == PassiveReceiveMaster
      modifies this
      ensures Now() == OnPassiveReceiveMaster(old(Now()), b, reply)
      ensures wantsBus <==> b == SYN && active.message
    {
      wantsBus := false;
      if b != SYN {
        if Implausible(|passive.master.bytes|, b) {
          CallPassiveReset();
          return;
        }
        passive := passive.(master := passive.master.Push(b));
        if |passive.master.bytes| == 5 {
          passive := passive.(masterDbx := passive.master.bytes[4]);
        }
        if b == EXT {
          passive := passive.(masterDbx := passive.masterDbx + 1);
        }
        assert passive == PushMaster(old(passive), b);
        if |passive.master.bytes| >= 5 + passive.masterDbx + 1 {
          hide PushMaster, MasterComplete;
          CompleteMaster(reply);
        }
      } else {
        CheckPassive();
        CheckActive();
        wantsBus := active.message;
        if wantsBus {
          outs := outs + [BusWanted];
        }
      }
    }

    method CompleteMaster(reply: Buffer)
      requires state == PassiveReceiveMaster && passive.master.extended && |passive.master.bytes| >= 6
      modifies this
      ensures Now() == MasterComplete(old(Now()), reply)
    {
      hide CreateMaster, Unstuff, MasterAccepted, MasterRejected;
      UnstuffShrinks(passive.master.bytes);
      passive := passive.(master := Buffer(passive.master.Reduced(), false));
      passive := passive.(tel := CreateMaster(passive.tel, passive.master.bytes));
      if passive.tel.masterState == SeqOk {
        AcceptMaster(passive.master.bytes[1], reply);
      } else {
        RejectMaster(passive.master.bytes[1]);
      }
    }

    method AcceptMaster(addressee: byte, reply: Buffer)
      requires |passive.master.bytes| >= 2 && addressee == passive.master.bytes[1]
      modifies this
      ensures Now() == MasterAccepted(old(Now()), reply)
    {
      hide Respond, Allowed;
      if passive.tel.kind == Broadcast {
        CallOnTelegram(PassiveMessage, Broadcast, passive.tel.master, passive.tel.slave);
        CallPassiveReset();
      } else if addressee == source {
        CallWrite(ACK);
        TransitionTo(ReactiveSendMasterPositiveAcknowledge);
      } else if addressee == target {
        AnswerRequest(reply);
      } else {
        TransitionTo(PassiveReceiveMasterAcknowledge);
      }
    }

    method RejectMaster(addressee: byte)
      requires |passive.master.bytes| >= 2 && addressee == passive.master.bytes[1]
      modifies this
      ensures Now() == MasterRejected(old(Now()))
    {
      hide Allowed;
      if addressee == source || addressee == target {
        CallOnError(ErrorReactiveMaster, passive.tel.masterState, passive.master.bytes, passive.slave.bytes);
        passive := passive.(tel := CLEARED, master := EMPTY, masterDbx := 0);
        CallWrite(NAK);
        TransitionTo(ReactiveSendMasterNegativeAcknowledge);
      } else if passive.tel.kind == MasterMaster || passive.tel.kind == MasterSlave {
        TransitionTo(PassiveReceiveMasterAcknowledge);
      } else {
        CallOnError(ErrorPassiveMaster, passive.tel.masterState, passive.master.bytes, passive.slave.bytes);
        CallPassiveReset();
      }
    }

    /** The reactive callback fills the slave buffer with `reply`. */
    method AnswerRequest(reply: Buffer)
      modifies this
      ensures Now() == Respond(old(Now()), reply)
    {
      hide CreateSlave, Unstuff, Allowed;
      passive := passive.(slave := EMPTY);
      passive := passive.(slave := reply);
      passive := passive.(slave := Buffer(passive.slave.Reduced(), false));
      passive := passive.(tel := CreateSlave(passive.tel, passive.slave.bytes));
      if passive.tel.slaveState == SeqOk {
        passive := passive.(slave := Buffer(Stuff(passive.tel.slave + [passive.tel.slaveCrc]), true));
        CallWrite(ACK);
        TransitionTo(ReactiveSendMasterPositiveAcknowledge);
      } else {
        CallOnError(ErrorReactiveSlave, passive.tel.slaveState, passive.master.bytes, passive.slave.bytes);
        CallPassiveReset();
        CallWrite(SYN);
        TransitionTo(ReleaseBus);
      }
    }

    method RunPassiveReceiveMasterAcknowledge(b: byte)
      modifies this
      ensures Now() == OnPassiveReceiveMasterAcknowledge(old(Now()), b)
    {
      if b == ACK {
        if passive.tel.kind == MasterMaster {
          CallOnTelegram(PassiveMessage, MasterMaster, passive.tel.master, passive.tel.slave);
          CallPassiveReset();
          TransitionTo(PassiveReceiveMaster);
        } else {
          TransitionTo(PassiveReceiveSlave);
        }
      } else if b != SYN && !passive.masterRepeated {
        passive := passive.(masterRepeated := true);
        passive := passive.(tel := CLEARED, master := EMPTY, masterDbx := 0);
        TransitionTo(PassiveReceiveMaster);
      } else {
        CallOnError(ErrorPassiveMasterAck, passive.tel.masterState, passive.master.bytes, passive.slave.bytes);
        CallPassiveReset();
        TransitionTo(PassiveReceiveMaster);
      }
    }

    method RunPassiveReceiveSlave(b: byte)
      modifies this
      ensures Now() == OnPassiveReceiveSlave(old(Now()), b)
    {
      hide CreateSlave, Unstuff, Allowed;
      if |passive.slave.bytes| == 0 {
        if b > MAX_DATA_BYTES {
          CallPassiveReset();
          return;
        }
      }
      passive := passive.(slave := passive.slave.Push(b));
      if |passive.slave.bytes| == 1 {
        passive := passive.(slaveDbx := b);
      }
      if b == EXT {
        passive := passive.(slaveDbx := passive.slaveDbx + 1);
      }
      assert passive == PushSlave(old(passive), b);
      if |passive.slave.bytes| >= 1 + passive.slaveDbx + 1 {
        hide PushSlave;
        passive := passive.(slave := Buffer(passive.slave.Reduced(), false));
        passive := passive.(tel := CreateSlave(passive.tel, passive.slave.bytes));
        if passive.tel.slaveState != SeqOk {
          CallOnError(ErrorPassiveSlave, passive.tel.slaveState, passive.master.bytes, passive.slave.bytes);
        }
        TransitionTo(PassiveReceiveSlaveAcknowledge);
      }
    }

    method RunPassiveReceiveSlaveAcknowledge(b: byte)
      modifies this
      ensures Now() == OnPassiveReceiveSlaveAcknowledge(old(Now()), b)
    {
      if b == ACK {
        CallOnTelegram(PassiveMessage, MasterSlave, passive.tel.master, passive.tel.slave);
        CallPassiveReset();
        TransitionTo(PassiveReceiveMaster);
      } else if b == NAK && !passive.slaveRepeated {
        passive := passive.(slaveRepeated := true);
        passive := passive.(slave := EMPTY, slaveDbx := 0);
        TransitionTo(PassiveReceiveSlave);
      } else {
        CallOnError(ErrorPassiveSlaveAck, passive.tel.slaveState, passive.master.bytes, passive.slave.bytes);
        CallPassiveReset();
        TransitionTo(PassiveReceiveMaster);
      }
    }

    // ---------- Reactive ----------

    method RunReactiveSendMasterPositiveAcknowledge()
      modifies this
      ensures Now() == OnReactiveSendMasterPositiveAcknowledge(old(Now()))
    {
      if passive.tel.kind == MasterMaster {
        CallOnTelegram(ReactiveMessage, MasterMaster, passive.tel.master, passive.tel.slave);
        CallPassiveReset();
        TransitionTo(PassiveReceiveMaster);
      } else {
        if passive.slaveIndex >= |passive.slave.bytes| {
          CallOnError(IllegalFsmTransition, passive.tel.masterState, passive.master.bytes, passive.slave.bytes);
          CallPassiveReset();
          TransitionTo(PassiveReceiveMaster);
          return;
        }
        CallWrite(passive.slave.bytes[passive.slaveIndex]);
        TransitionTo(ReactiveSendSlave);
      }
    }

    method RunReactiveSendMasterNegativeAcknowledge()
      modifies this
      ensures Now() == OnReactiveSendMasterNegativeAcknowledge(old(Now()))
    {
      TransitionTo(PassiveReceiveMaster);
      if !passive.masterRepeated {
        passive := passive.(masterRepeated := true);
      } else {
        CallOnError(ErrorReactiveMasterAck, passive.tel.masterState, passive.master.bytes, passive.slave.bytes);
        CallPassiveReset();
      }
    }

    method RunReactiveSendSlave()
      modifies this
      ensures Now() == OnReactiveSendSlave(old(Now()))
    {
      passive := passive.(slaveIndex := passive.slaveIndex + 1);
      if passive.slaveIndex >= |passive.slave.bytes| {
        TransitionTo(ReactiveReceiveSlaveAcknowledge);
      } else {
        CallWrite(passive.slave.bytes[passive.slaveIndex]);
      }
    }

    method RunReactiveReceiveSlaveAcknowledge(b: byte)
      requires |passive.slave.bytes| > 0
      modifies this
      ensures Now() == OnReactiveReceiveSlaveAcknowledge(old(Now()), b)
    {
      if b == ACK {
        CallOnTelegram(ReactiveMessage, MasterSlave, passive.tel.master, passive.tel.slave);
        CallPassiveReset();
        TransitionTo(PassiveReceiveMaster);
      } else if b == NAK && !passive.slaveRepeated {
        passive := passive.(slaveRepeated := true);
        passive := passive.(slaveIndex := 0);
        CallWrite(passive.slave.bytes[passive.slaveIndex]);
        TransitionTo(ReactiveSendSlave);
      } else {
        CallOnError(ErrorReactiveSlaveAck, passive.tel.slaveState, passive.master.bytes, passive.slave.bytes);
        CallPassiveReset();
        TransitionTo(PassiveReceiveMaster);
      }
    }

    // ---------- Arbitration ----------

    method Win()
      modifies this
      ensures Now() == ArbitrationWon(old(Now()))
    {
      hide Stuff;
      active := active.(master := Buffer(Stuff(active.tel.master + [active.tel.masterCrc]), true));
      if |active.master.bytes| > 1 {
        outs := outs + [Won];
        active := active.(masterIndex := 1);
        CallWrite(active.master.bytes[active.masterIndex]);
        TransitionTo(ActiveSendMaster);
      } else {
        outs := outs + [Lost];
        active := active.(message := false, tel := CLEARED, master := EMPTY);
        CallWrite(SYN);
        TransitionTo(ReleaseBus);
      }
    }

    method Lose(b: byte)
      modifies this
      ensures Now() == ArbitrationLost(old(Now()), b)
    {
      outs := outs + [Lost];
      passive := passive.(master := passive.master.Push(b));
      active := active.(message := false, tel := CLEARED, master := EMPTY);
      TransitionTo(PassiveReceiveMaster);
    }

    method Abandon()
      modifies this
      ensures Now() == ArbitrationFailed(old(Now()))
    {
      outs := outs + [Lost];
      active := active.(message := false, tel := CLEARED, master := EMPTY);
      TransitionTo(PassiveReceiveMaster);
    }

    method RunRequestBus(b: byte, result: R.RequestResult)
      modifies this
      ensures Now() == OnRequestBus(old(Now()), b, result)
    {
      hide ArbitrationWon, ArbitrationLost, ArbitrationFailed;
      match result {
        case ObserveSyn => Abandon();
        case ObserveData => Abandon();
        case FirstSyn =>
        case FirstWon => Win();
        case FirstRetry =>
        case FirstLost => Lose(b);
        case FirstError => Lose(b);
        case RetrySyn =>
        case RetryError => Abandon();
        case SecondWon => Win();
        case SecondLost => Lose(b);
        case SecondError => Lose(b);
      }
    }

    // ---------- Active ----------

    method RunActiveSendMaster(b: byte)
      modifies this
      ensures Now() == OnActiveSendMaster(old(Now()), b)
    {
      hide Allowed;
      if active.masterIndex >= |active.master.bytes| {
        CallOnError(IllegalFsmTransition, active.tel.masterState, active.master.bytes, active.slave.bytes);
        CallActiveReset();
        TransitionTo(PassiveReceiveMaster);
        return;
      }
      if b != active.master.bytes[active.masterIndex] {
        CallOnError(ErrorActiveMasterEcho, active.tel.masterState, active.master.bytes, active.slave.bytes);
        CallActiveReset();
        TransitionTo(PassiveReceiveMaster);
        return;
      }
      active := active.(masterIndex := active.masterIndex + 1);
      if active.masterIndex >= |active.master.bytes| {
        if active.tel.kind == Broadcast {
          CallOnTelegram(ActiveMessage, Broadcast, active.master.bytes, active.slave.bytes);
          CallActiveReset();
          CallWrite(SYN);
          TransitionTo(ReleaseBus);
        } else {
          TransitionTo(ActiveReceiveMasterAcknowledge);
        }
      } else {
        CallWrite(active.master.bytes[active.masterIndex]);
      }
    }

    method RunActiveReceiveMasterAcknowledge(b: byte)
      requires |active.master.bytes| > 0
      modifies this
      ensures Now() == OnActiveReceiveMasterAcknowledge(old(Now()), b)
    {
      if b == ACK {
        if active.tel.kind == MasterMaster {
          CallOnTelegram(ActiveMessage, MasterMaster, active.master.bytes, active.slave.bytes);
          CallActiveReset();
          CallWrite(SYN);
          TransitionTo(ReleaseBus);
        } else {
          TransitionTo(ActiveReceiveSlave);
        }
      } else if b == NAK && !active.masterRepeated {
        active := active.(masterRepeated := true);
        active := active.(masterIndex := 0);
        CallWrite(active.master.bytes[active.masterIndex]);
        TransitionTo(ActiveSendMaster);
      } else {
        CallOnError(ErrorActiveMasterAck, active.tel.masterState, active.master.bytes, active.slave.bytes);
        CallActiveReset();
        CallWrite(SYN);
        TransitionTo(ReleaseBus);
      }
    }

    method RunActiveReceiveSlave(b: byte)
      modifies this
      ensures Now() == OnActiveReceiveSlave(old(Now()), b)
    {
      hide ActiveSlaveComplete, Allowed;
      if |active.slave.bytes| == 0 {
        if b > MAX_DATA_BYTES {
          CallOnError(ErrorActiveSlave, ErrDataByte, active.master.bytes, []);
          active := active.(slave := EMPTY, slaveDbx := 0);
          CallWrite(NAK);
          TransitionTo(ActiveSendSlaveNegativeAcknowledge);
          return;
        }
      }
      active := active.(slave := active.slave.Push(b));
      if |active.slave.bytes| == 1 {
        active := active.(slaveDbx := b);
      }
      if b == EXT {
        active := active.(slaveDbx := active.slaveDbx + 1);
      }
      assert active == PushActiveSlave(old(active), b);
      if |active.slave.bytes| >= 1 + active.slaveDbx + 1 {
        CompleteActiveSlave();
      }
    }

    method CompleteActiveSlave()
      modifies this
      ensures Now() == ActiveSlaveComplete(old(Now()))
    {
      hide CreateSlave, Unstuff, Allowed;
      active := active.(slave := Buffer(active.slave.Reduced(), false));
      active := active.(tel := CreateSlave(active.tel, active.slave.bytes));
      if active.tel.slaveState == SeqOk {
        CallWrite(ACK);
        TransitionTo(ActiveSendSlavePositiveAcknowledge);
      } else {
        CallOnError(ErrorActiveSlave, active.tel.slaveState, active.master.bytes, active.slave.bytes);
        active := active.(slave := EMPTY, slaveDbx := 0);
        CallWrite(NAK);
        TransitionTo(ActiveSendSlaveNegativeAcknowledge);
      }
    }

    method RunActiveSendSlavePositiveAcknowledge()
      modifies this
      ensures Now() == OnActiveSendSlavePositiveAcknowledge(old(Now()))
    {
      CallOnTelegram(ActiveMessage, MasterSlave, active.tel.master, active.tel.slave);
      CallActiveReset();
      CallWrite(SYN);
      TransitionTo(ReleaseBus);
    }

    method RunActiveSendSlaveNegativeAcknowledge()
      modifies this
      ensures Now() == OnActiveSendSlaveNegativeAcknowledge(old(Now()))
    {
      if !active.slaveRepeated {
        active := active.(slaveRepeated := true);
        TransitionTo(ActiveReceiveSlave);
      } else {
        CallOnError(ErrorActiveSlaveAck, active.tel.slaveState, active.master.bytes, active.slave.bytes);
        CallActiveReset();
        CallWrite(SYN);
        TransitionTo(ReleaseBus);
      }
    }

    // ---------- Entry points ----------

    /** One byte: the invariant is kept and the step is good; `write` is the deferred bus write. */
    method Run(i: Input) returns (write: Option<byte>, wantsBus: bool)
      requires Inv(Value())
      modifies this
      ensures Now() == Step(old(Value()), i) && write == Step(old(Value()), i).write
      ensures Inv(Value()) && GoodStep(old(Value()), i.b, Step(old(Value()), i))
      ensures wantsBus <==> old(state) == PassiveReceiveMaster && i.b == SYN && active.message
    {
      Steps.GoodByte(Value(), i);
      ghost var n := Value();
      pendingWrite := None;
      outs := [];
      wantsBus := false;
      BuffersInRange(n);
      hide Inv, GoodStep, OnPassiveReceiveMaster, OnPassiveReceiveMasterAcknowledge, OnPassiveReceiveSlave,
           OnPassiveReceiveSlaveAcknowledge, OnReactiveSendMasterPositiveAcknowledge, OnReactiveSendMasterNegativeAcknowledge,
           OnReactiveSendSlave, OnReactiveReceiveSlaveAcknowledge, OnRequestBus, OnActiveSendMaster,
           OnActiveReceiveMasterAcknowledge, OnActiveReceiveSlave, OnActiveSendSlavePositiveAcknowledge,
           OnActiveSendSlaveNegativeAcknowledge, OnReleaseBus;
      assert Now() == Effect(n, None, []);
      match state {
        case PassiveReceiveMaster => wantsBus := RunPassiveReceiveMaster(i.b, i.reply);
        case PassiveReceiveMasterAcknowledge => RunPassiveReceiveMasterAcknowledge(i.b);
        case PassiveReceiveSlave => RunPassiveReceiveSlave(i.b);
        case PassiveReceiveSlaveAcknowledge => RunPassiveReceiveSlaveAcknowledge(i.b);
        case ReactiveSendMasterPositiveAcknowledge => RunReactiveSendMasterPositiveAcknowledge();
        case ReactiveSendMasterNegativeAcknowledge => RunReactiveSendMasterNegativeAcknowledge();
        case ReactiveSendSlave => RunReactiveSendSlave();
        case ReactiveReceiveSlaveAcknowledge => RunReactiveReceiveSlaveAcknowledge(i.b);
        case RequestBus => RunRequestBus(i.b, i.result);
        case ActiveSendMaster => RunActiveSendMaster(i.b);
        case ActiveReceiveMasterAcknowledge => RunActiveReceiveMasterAcknowledge(i.b);
        case ActiveReceiveSlave => RunActiveReceiveSlave(i.b);
        case ActiveSendSlavePositiveAcknowledge => RunActiveSendSlavePositiveAcknowledge();
        case ActiveSendSlaveNegativeAcknowledge => RunActiveSendSlaveNegativeAcknowledge();
        case ReleaseBus =>
          TransitionTo(PassiveReceiveMaster);
          ReleaseIsGo(n);
      }
      write := pendingWrite;
    }

    method Send(message: seq<byte>) returns (accepted: bool)
      requires Inv(Value())
      modifies this
      ensures Value() == SendActiveMessage(old(Value()), message) && Inv(Value())
      ensures accepted <==> !old(active.message) && active.message
    {
      Runs.GoodSend(Value(), message);
      hide Inv, CreateMaster;
      if active.message {
        return false;
      }
      if message == [] {
        return false;
      }
      var tel := CreateMaster(active.tel, [source] + message);
      active := active.(tel := tel);
      if tel.masterState == SeqOk {
        active := active.(message := true);
      }
      accepted := active.message;
    }

    method BusRequested()
      modifies this
      ensures Value() == OnBusRequested(old(Value()))
    {
      if active.message && state != RequestBus {
        TransitionTo(RequestBus);
      }
    }

    method ResetAll()
      requires Inv(Value())
      modifies this
      ensures Value() == ResetNode(old(Value())) && Inv(Value())
    {
      Runs.GoodReset(Value());
      hide Inv;
      TransitionTo(PassiveReceiveMaster);
      CallActiveReset();
      CallPassiveReset();
    }
  }

  lemma ReleaseIsGo(n: Node)
    ensures OnReleaseBus(Effect(n, None, [])) == Effect(n, None, []).Go(PassiveReceiveMaster)
  {
  }

  /** Where the source reads element 0 of a buffer without a test, the buffer is not empty. */
  lemma BuffersInRange(n: Node)
    requires Inv(n)
    ensures n.state == ReactiveReceiveSlaveAcknowledge ==> |n.passive.slave.bytes| > 0
    ensures n.state == ActiveReceiveMasterAcknowledge ==> |n.active.master.bytes| > 0
  {
    hide LogicalCrc, IsMaster, SlaveOf, TypeOf, KindOf, Exts, Part, Stuff, Unstuff, ActiveIdle, MasterCounted,
         MasterBuffer, ReplyBuffer;
    if n.state == ReactiveReceiveSlaveAcknowledge {
      Steps.ReplyIsPart(n.passive.tel);
    }
    if n.state == ActiveReceiveMasterAcknowledge {
      Steps.MasterIsPart(n.active.tel);
    }
  }
}
