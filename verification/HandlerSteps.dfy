/** Every step of the handler keeps the invariant; every run therefore does. */
module HandlerSteps {
  import opened Bytes
  import opened Stuffing
  import opened Crc
  import opened Telegram
  import opened Handler
  import opened HandlerInvariant
  import Request

  function Start(n: Node): Effect {
    Effect(n, None, [])
  }

  // ---------- Passive ----------

  lemma GoodPassiveSyn(n: Node, reply: Buffer)
    requires Inv(n) && n.state == PassiveReceiveMaster
    ensures GoodStep(n, SYN, OnPassiveReceiveMaster(Start(n), SYN, reply))
    ensures OnPassiveReceiveMaster(Start(n), SYN, reply).node == n.(passive := n.passive.(
              master := EMPTY, masterDbx := 0, masterRepeated := n.passive.masterRepeated && n.passive.master.bytes == []))
  {
    hide LogicalCrc, IsMaster, SlaveOf, TypeOf, ValidMaster, Exts, Counted, Part, Stuff, Unstuff;
  }

  lemma GoodBuffering(n: Node, b: byte, reply: Buffer)
    requires Inv(n) && n.state == PassiveReceiveMaster && b != SYN
    requires var p := PushMaster(n.passive, b);
             Implausible(|n.passive.master.bytes|, b) || |p.master.bytes| < 6 + p.masterDbx
    ensures GoodStep(n, b, OnPassiveReceiveMaster(Start(n), b, reply))
  {
    hide LogicalCrc, IsMaster, SlaveOf, TypeOf, ValidMaster, Exts, Counted, Part, Stuff, Unstuff;
    if !Implausible(|n.passive.master.bytes|, b) {
      PushCounted(n.passive, b);
    }
  }

  /** The addressee of an accepted part decides its kind. */
  lemma KindByAddressee(n: Node, m: seq<byte>)
    requires IsMaster(n.source) && n.target == SlaveOf(n.source) && ValidMaster(m)
    ensures m[1] == n.source ==> KindOf(m) == MasterMaster
    ensures m[1] == n.target ==> KindOf(m) == MasterSlave
  {
    SlaveOfMaster(n.source);
    MasterIsNotBroadcast(n.source);
  }

  lemma MasterIsNotBroadcast(b: byte)
    requires IsMaster(b)
    ensures b != BROADCAST
  {
  }

  lemma PartBytes(m: seq<byte>)
    requires ValidMaster(m)
    ensures |m| >= 5 && |Part(m)| >= 6 && Part(m)[1] == m[1]
  {
  }

  /** A part just accepted, at a node otherwise as before. */
  predicate JustAccepted(n: Node, w: seq<byte>, q: Node) {
    && q == n.(passive := q.passive) && SlaveIdle(q.passive) && MasterInHand(q.passive)
    && Unstuff(w) == Part(q.passive.tel.master) && q.passive.tel.slave == []
  }

  lemma GoodRespond(n: Node, b: byte, reply: Buffer, q: Node)
    requires Inv(n) && n.state == PassiveReceiveMaster
    requires q == n.(passive := q.passive) && SlaveIdle(q.passive) && MasterInHand(q.passive)
    requires q.passive.tel.kind == MasterSlave
    ensures GoodStep(n, b, Respond(Start(q), reply))
  {
    hide LogicalCrc, IsMaster, SlaveOf, TypeOf, KindOf, ValidMaster, ValidSlave, Exts, Counted, Part, Stuff, Unstuff, CreateSlave;
    CreateSlaveExact(q.passive.tel, reply.Reduced());
  }

  lemma GoodAccepted(n: Node, b: byte, reply: Buffer, w: seq<byte>, q: Node)
    requires Inv(n) && n.state == PassiveReceiveMaster && w == n.passive.master.bytes + [b]
    requires JustAccepted(n, w, q)
    ensures GoodStep(n, b, MasterAccepted(Start(q), reply))
  {
    hide LogicalCrc, IsMaster, SlaveOf, TypeOf, KindOf, ValidMaster, ValidSlave, Exts, Counted, Part, Stuff, Unstuff, Respond;
    var m := q.passive.tel.master;
    KindByAddressee(n, m);
    KindIsKnown(m);
    PartBytes(m);
    if m[1] == n.target && m[1] != n.source && KindOf(m) != Broadcast {
      GoodRespond(n, b, reply, q);
    }
  }

  lemma GoodRejected(n: Node, b: byte, q: Node)
    requires Inv(n) && n.state == PassiveReceiveMaster
    requires q == n.(passive := q.passive) && SlaveIdle(q.passive)
    ensures GoodStep(n, b, MasterRejected(Start(q)))
  {
    hide LogicalCrc, IsMaster, SlaveOf, TypeOf, ValidMaster, Exts, Counted, Part, Stuff, Unstuff;
  }

  lemma GoodComplete(n: Node, b: byte, reply: Buffer)
    requires Inv(n) && n.state == PassiveReceiveMaster && b != SYN
    requires var p := PushMaster(n.passive, b);
             !Implausible(|n.passive.master.bytes|, b) && |p.master.bytes| >= 6 + p.masterDbx
    ensures GoodStep(n, b, OnPassiveReceiveMaster(Start(n), b, reply))
  {
    hide LogicalCrc, IsMaster, SlaveOf, TypeOf, KindOf, ValidMaster, Exts, Counted, Part, Stuff, Unstuff,
         MasterAccepted, MasterRejected, CreateMaster, GoodStep;
    PushCounted(n.passive, b);
    var p := PushMaster(n.passive, b);
    var w := p.master.bytes;
    var tel := CreateMaster(p.tel, Unstuff(w));
    CreateMasterExact(p.tel, Unstuff(w));
    var q := n.(passive := p.(tel := tel, master := Buffer(Unstuff(w), false)));
    if tel.masterState == SeqOk {
      AcceptedCarriesCrc(p.tel, w, p.masterDbx);
      GoodAccepted(n, b, reply, w, q);
    } else {
      GoodRejected(n, b, q);
    }
  }

  lemma GoodPassiveReceiveMaster(n: Node, b: byte, reply: Buffer)
    requires Inv(n) && n.state == PassiveReceiveMaster
    ensures GoodStep(n, b, OnPassiveReceiveMaster(Start(n), b, reply))
  {
    hide GoodStep, OnPassiveReceiveMaster, Inv;
    var p := PushMaster(n.passive, b);
    if b == SYN {
      GoodPassiveSyn(n, reply);
    } else if Implausible(|n.passive.master.bytes|, b) || |p.master.bytes| < 6 + p.masterDbx {
      GoodBuffering(n, b, reply);
    } else {
      GoodComplete(n, b, reply);
    }
  }

  lemma GoodPassiveMasterAcknowledge(n: Node, b: byte)
    requires Inv(n) && n.state == PassiveReceiveMasterAcknowledge
    ensures GoodStep(n, b, OnPassiveReceiveMasterAcknowledge(Start(n), b))
  {
    hide LogicalCrc, IsMaster, SlaveOf, TypeOf, KindOf, ValidMaster, ValidSlave, Exts, Counted, Part, Stuff, Unstuff, CreateSlave;
  }

  lemma GoodPassiveReceiveSlave(n: Node, b: byte)
    requires Inv(n) && n.state == PassiveReceiveSlave
    ensures GoodStep(n, b, OnPassiveReceiveSlave(Start(n), b))
  {
    hide LogicalCrc, IsMaster, SlaveOf, TypeOf, KindOf, ValidMaster, ValidSlave, Exts, Counted, Part, Stuff, Unstuff, CreateSlave;
  }

  lemma GoodPassiveSlaveAcknowledge(n: Node, b: byte)
    requires Inv(n) && n.state == PassiveReceiveSlaveAcknowledge
    ensures GoodStep(n, b, OnPassiveReceiveSlaveAcknowledge(Start(n), b))
  {
    hide LogicalCrc, IsMaster, SlaveOf, TypeOf, KindOf, ValidMaster, ValidSlave, Exts, Counted, Part, Stuff, Unstuff, CreateSlave;
  }

  // ---------- Reactive ----------

  lemma ReplyIsPart(t: Telegram)
    requires HoldsSlave(t)
    ensures ReplyBuffer(t).bytes == Stuff(Part(t.slave)) && |ReplyBuffer(t).bytes| >= 2
  {
    StuffNonEmpty(Part(t.slave));
  }

  lemma GoodReactivePositive(n: Node, b: byte)
    requires Inv(n) && n.state == ReactiveSendMasterPositiveAcknowledge
    ensures GoodStep(n, b, OnReactiveSendMasterPositiveAcknowledge(Start(n)))
  {
    hide LogicalCrc, IsMaster, SlaveOf, TypeOf, KindOf, ValidMaster, ValidSlave, Exts, Counted, Part, Stuff, Unstuff, ReplyBuffer;
    if ReplyInHand(n.passive) {
      ReplyIsPart(n.passive.tel);
    }
  }

  lemma GoodReactiveNegative(n: Node, b: byte)
    requires Inv(n) && n.state == ReactiveSendMasterNegativeAcknowledge
    ensures GoodStep(n, b, OnReactiveSendMasterNegativeAcknowledge(Start(n)))
  {
    hide LogicalCrc, IsMaster, SlaveOf, TypeOf, KindOf, ValidMaster, ValidSlave, Exts, Counted, Part, Stuff, Unstuff, ReplyBuffer;
  }

  lemma GoodReactiveSend(n: Node, b: byte)
    requires Inv(n) && n.state == ReactiveSendSlave
    ensures GoodStep(n, b, OnReactiveSendSlave(Start(n)))
  {
    hide LogicalCrc, IsMaster, SlaveOf, TypeOf, KindOf, ValidMaster, ValidSlave, Exts, Counted, Part, Stuff, Unstuff, ReplyBuffer;
  }

  lemma GoodReactiveAcknowledge(n: Node, b: byte)
    requires Inv(n) && n.state == ReactiveReceiveSlaveAcknowledge
    ensures GoodStep(n, b, OnReactiveReceiveSlaveAcknowledge(Start(n), b))
  {
    hide LogicalCrc, IsMaster, SlaveOf, TypeOf, KindOf, ValidMaster, ValidSlave, Exts, Counted, Part, Stuff, Unstuff, ReplyBuffer;
    ReplyIsPart(n.passive.tel);
  }

  // ---------- Arbitration and active ----------

  lemma MasterIsPart(t: Telegram)
    requires HoldsMaster(t)
    ensures MasterBuffer(t).bytes == Stuff(Part(t.master)) && |MasterBuffer(t).bytes| >= 6
  {
    StuffNonEmpty(Part(t.master));
  }

  lemma GoodArbitrationLost(n: Node, b: byte)
    requires Inv(n) && n.state == RequestBus
    ensures GoodStep(n, b, ArbitrationLost(Start(n), b))
  {
    hide LogicalCrc, IsMaster, SlaveOf, TypeOf, KindOf, ValidMaster, ValidSlave, Exts, Counted, Part, Stuff, Unstuff, MasterBuffer;
    if IsMaster(b) {
      MasterNeedsNoEscape(b);
    }
  }

  lemma GoodRequestBus(n: Node, b: byte, result: Request.RequestResult)
    requires Inv(n) && n.state == RequestBus
    ensures GoodStep(n, b, OnRequestBus(Start(n), b, result))
  {
    hide LogicalCrc, IsMaster, SlaveOf, TypeOf, KindOf, ValidMaster, ValidSlave, Exts, Counted, Part, Stuff, Unstuff, MasterBuffer,
         ArbitrationLost;
    MasterIsPart(n.active.tel);
    GoodArbitrationLost(n, b);
  }

  /** What an active delivery of the own master part alone, or of no telegram at all, is worth. */
  lemma ActiveSound(n: Node, b: byte)
    ensures forall o: Output :: !o.Delivered? ==> Sound(n, b, o)
    ensures HoldsMaster(n.active.tel) && n.active.tel.master[0] == n.source && n.active.tel.kind != MasterSlave ==>
              Sound(n, b, Delivered(ActiveMessage, n.active.tel.kind, Stuff(Part(n.active.tel.master)), []))
  {
    hide LogicalCrc, IsMaster, KindOf, Part, Stuff, Unstuff;
  }

  /** Giving up or ending an active exchange is always fit. */
  lemma ClearedInv(n: Node)
    requires Inv(n) && (n.state == ActiveSendMaster || n.state == ActiveReceiveMasterAcknowledge)
    ensures Inv(n.(state := PassiveReceiveMaster, active := IDLE_ACTIVE))
    ensures Inv(n.(state := ReleaseBus, active := IDLE_ACTIVE))
    ensures HoldsMaster(n.active.tel) && n.active.tel.master[0] == n.source && n.active.slave == EMPTY
    ensures n.active.master == MasterBuffer(n.active.tel)
    ensures n.state == ActiveSendMaster ==> n.active.masterIndex < |n.active.master.bytes|
    ensures n.state == ActiveReceiveMasterAcknowledge ==> n.active.tel.kind != Broadcast
  {
    hide LogicalCrc, IsMaster, SlaveOf, TypeOf, KindOf, Exts, Counted, Part, Stuff, MasterBuffer, Listening, ReplyInHand;
  }

  lemma SendingInv(n: Node)
    requires Inv(n) && n.state == ActiveSendMaster
    ensures var a := n.active.(masterIndex := n.active.masterIndex + 1);
            && (a.masterIndex < |a.master.bytes| ==> Inv(n.(active := a)))
            && (a.tel.kind != Broadcast ==> Inv(n.(state := ActiveReceiveMasterAcknowledge, active := a)))
  {
    hide LogicalCrc, IsMaster, SlaveOf, TypeOf, KindOf, Exts, Counted, Part, Stuff, MasterBuffer, Listening, ReplyInHand;
  }

  lemma GoodActiveSendMaster(n: Node, b: byte)
    requires Inv(n) && n.state == ActiveSendMaster
    ensures GoodStep(n, b, OnActiveSendMaster(Start(n), b))
  {
    hide Inv, Sound, HoldsMaster, MasterBuffer, Part, Stuff;
    ClearedInv(n);
    SendingInv(n);
    MasterIsPart(n.active.tel);
    ActiveSound(n, b);
  }

  lemma AcknowledgedInv(n: Node)
    requires Inv(n) && n.state == ActiveReceiveMasterAcknowledge && |n.active.master.bytes| > 0
    ensures n.active.tel.kind != MasterMaster ==> Inv(n.(state := ActiveReceiveSlave))
    ensures Inv(n.(state := ActiveSendMaster, active := n.active.(masterRepeated := true, masterIndex := 0)))
  {
    hide LogicalCrc, IsMaster, SlaveOf, TypeOf, Exts, Counted, Part, Stuff, MasterBuffer, Listening, ReplyInHand;
    KindIsKnown(n.active.tel.master);
  }

  lemma GoodActiveMasterAcknowledge(n: Node, b: byte)
    requires Inv(n) && n.state == ActiveReceiveMasterAcknowledge
    ensures GoodStep(n, b, OnActiveReceiveMasterAcknowledge(Start(n), b))
  {
    hide Inv, Sound, HoldsMaster, MasterBuffer, Part, Stuff;
    ClearedInv(n);
    MasterIsPart(n.active.tel);
    AcknowledgedInv(n);
    ActiveSound(n, b);
  }

  lemma KindIsKnown(m: seq<byte>)
    requires ValidMaster(m)
    ensures KindOf(m) == Broadcast || KindOf(m) == MasterMaster || KindOf(m) == MasterSlave
  {
    hide Exts;
  }

  lemma PushActiveCounted(a: Active, b: byte)
    requires ActiveSlaveCounted(a) && (a.slave.bytes == [] ==> b <= MAX_DATA_BYTES)
    ensures var z := PushActiveSlave(a, b);
            && z.slave == Buffer(a.slave.bytes + [b], true) && z.slave.bytes[0] <= MAX_DATA_BYTES
            && z.slaveDbx == z.slave.bytes[0] + Exts(z.slave.bytes)
  {
    ExtsSnoc(a.slave.bytes, b);
    if a.slave.bytes == [] {
      NoExts([]);
    }
  }

  /** A slave part that the length test completed and createSlave accepted carried its CRC. */
  lemma AcceptedSlaveCarriesCrc(t: Telegram, w: seq<byte>)
    requires w != [] && w[0] <= MAX_DATA_BYTES && |w| >= 2 + w[0] + Exts(w)
    requires CreateSlave(t, Unstuff(w)).slaveState == SeqOk
    ensures var r := CreateSlave(t, Unstuff(w)); HoldsSlave(r) && Unstuff(w) == Part(r.slave)
  {
    hide LogicalCrc, Unstuff, Exts;
    CreateSlaveExact(t, Unstuff(w));
    UnstuffShrinks(w);
    UnstuffHead(w);
  }

  lemma GoodActiveSlaveComplete(n: Node, b: byte, z: Active)
    requires Inv(n) && n.state == ActiveReceiveSlave
    requires z == n.active.(slave := z.slave, slaveDbx := z.slaveDbx) && z.slave.extended
    requires var w := z.slave.bytes; w != [] && w[0] <= MAX_DATA_BYTES && |w| >= 2 + w[0] + Exts(w)
    ensures GoodStep(n, b, ActiveSlaveComplete(Start(n.(active := z))))
  {
    hide LogicalCrc, IsMaster, SlaveOf, TypeOf, KindOf, ValidMaster, ValidSlave, Exts, Counted, Part, Stuff, Unstuff,
         Listening, CreateSlave, Sound, MasterInHand, ReplyInHand;
    var w := z.slave.bytes;
    ActiveSound(n, b);
    CreateSlaveExact(z.tel, Unstuff(w));
    if CreateSlave(z.tel, Unstuff(w)).slaveState == SeqOk {
      AcceptedSlaveCarriesCrc(z.tel, w);
    }
  }

  lemma GoodActiveReceiveSlave(n: Node, b: byte)
    requires Inv(n) && n.state == ActiveReceiveSlave
    ensures GoodStep(n, b, OnActiveReceiveSlave(Start(n), b))
  {
    hide LogicalCrc, IsMaster, SlaveOf, TypeOf, KindOf, ValidMaster, ValidSlave, Exts, Counted, Part, Stuff, Unstuff,
         Listening, ActiveSlaveComplete, MasterInHand, ReplyInHand;
    var a := n.active;
    if !(a.slave.bytes == [] && b > MAX_DATA_BYTES) {
      PushActiveCounted(a, b);
      var z := PushActiveSlave(a, b);
      if |z.slave.bytes| >= 2 + z.slaveDbx {
        GoodActiveSlaveComplete(n, b, z);
      }
    }
  }

  lemma GoodActivePositive(n: Node, b: byte)
    requires Inv(n) && n.state == ActiveSendSlavePositiveAcknowledge
    ensures GoodStep(n, b, OnActiveSendSlavePositiveAcknowledge(Start(n)))
  {
    hide LogicalCrc, IsMaster, SlaveOf, TypeOf, KindOf, ValidMaster, ValidSlave, Exts, Counted, Part, Stuff, Unstuff,
         MasterBuffer, Listening;
    MasterIsPart(n.active.tel);
  }

  lemma GoodActiveNegative(n: Node, b: byte)
    requires Inv(n) && n.state == ActiveSendSlaveNegativeAcknowledge
    ensures GoodStep(n, b, OnActiveSendSlaveNegativeAcknowledge(Start(n)))
  {
    hide LogicalCrc, IsMaster, SlaveOf, TypeOf, KindOf, ValidMaster, ValidSlave, Exts, Counted, Part, Stuff, Unstuff,
         MasterBuffer, Listening;
  }

  lemma GoodReleaseBus(n: Node, b: byte)
    requires Inv(n) && n.state == ReleaseBus
    ensures GoodStep(n, b, OnReleaseBus(Start(n)))
  {
    hide LogicalCrc, IsMaster, SlaveOf, TypeOf, KindOf, ValidMaster, ValidSlave, Exts, Counted, Part, Stuff, Unstuff,
         MasterBuffer, MasterCounted;
  }

  // ---------- Every step ----------

  lemma GoodByte(n: Node, i: Input)
    requires Inv(n)
    ensures GoodStep(n, i.b, Step(n, i))
  {
    hide Inv, GoodStep;
    match n.state {
      case PassiveReceiveMaster => GoodPassiveReceiveMaster(n, i.b, i.reply);
      case PassiveReceiveMasterAcknowledge => GoodPassiveMasterAcknowledge(n, i.b);
      case PassiveReceiveSlave => GoodPassiveReceiveSlave(n, i.b);
      case PassiveReceiveSlaveAcknowledge => GoodPassiveSlaveAcknowledge(n, i.b);
      case ReactiveSendMasterPositiveAcknowledge => GoodReactivePositive(n, i.b);
      case ReactiveSendMasterNegativeAcknowledge => GoodReactiveNegative(n, i.b);
      case ReactiveSendSlave => GoodReactiveSend(n, i.b);
      case ReactiveReceiveSlaveAcknowledge => GoodReactiveAcknowledge(n, i.b);
      case RequestBus => GoodRequestBus(n, i.b, i.result);
      case ActiveSendMaster => GoodActiveSendMaster(n, i.b);
      case ActiveReceiveMasterAcknowledge => GoodActiveMasterAcknowledge(n, i.b);
      case ActiveReceiveSlave => GoodActiveReceiveSlave(n, i.b);
      case ActiveSendSlavePositiveAcknowledge => GoodActivePositive(n, i.b);
      case ActiveSendSlaveNegativeAcknowledge => GoodActiveNegative(n, i.b);
      case ReleaseBus => GoodReleaseBus(n, i.b);
    }
  }
}
