/** What a handler puts on the bus, and when. */
module WriteDiscipline {
  import opened Bytes
  import opened Stuffing
  import opened Crc
  import opened Telegram
  import opened Handler
  import opened HandlerInvariant
  import opened HandlerSteps
  import opened Feed
  import Request

  /** SYN is written exactly by the steps that enter release_bus. */
  predicate SynDiscipline(n: Node, e: Effect) {
    e.write == Some(SYN) <==> n.state != ReleaseBus && e.node.state == ReleaseBus
  }

  lemma WireHasNoSyn(s: seq<byte>)
    ensures SYN !in Stuff(s)
  {
    RoundTripExact(s, []);
  }

  lemma SynByJudgement(n: Node, reply: Buffer)
    requires n.state == PassiveReceiveMaster
    ensures SynDiscipline(n, MasterComplete(Start(n), reply))
  {
    hide LogicalCrc, IsMaster, SlaveOf, TypeOf, KindOf, Exts, Part, Stuff, Unstuff, CreateMaster, CreateSlave, StateInv, ReplyBuffer, AddressedTo;
  }

  lemma SynByPassiveMaster(n: Node, i: Input)
    requires Inv(n) && n.state == PassiveReceiveMaster
    ensures SynDiscipline(n, OnPassiveReceiveMaster(Start(n), i.b, i.reply))
  {
    hide LogicalCrc, IsMaster, SlaveOf, TypeOf, KindOf, Exts, Part, Stuff, Unstuff, CreateMaster, CreateSlave, StateInv, MasterComplete, Implausible;
    SynByJudgement(n.(passive := PushMaster(n.passive, i.b)), i.reply);
  }

  lemma SynByPassive(n: Node, i: Input)
    requires Inv(n)
    ensures n.state == PassiveReceiveMasterAcknowledge ==> SynDiscipline(n, OnPassiveReceiveMasterAcknowledge(Start(n), i.b))
    ensures n.state == PassiveReceiveSlave ==> SynDiscipline(n, OnPassiveReceiveSlave(Start(n), i.b))
    ensures n.state == PassiveReceiveSlaveAcknowledge ==> SynDiscipline(n, OnPassiveReceiveSlaveAcknowledge(Start(n), i.b))
  {
    hide LogicalCrc, IsMaster, SlaveOf, TypeOf, KindOf, Exts, Part, Stuff, Unstuff, CreateMaster, CreateSlave, StateInv;
  }

  lemma SynByReactive(n: Node, i: Input)
    requires Inv(n)
    ensures n.state == ReactiveSendMasterPositiveAcknowledge ==>
              SynDiscipline(n, OnReactiveSendMasterPositiveAcknowledge(Start(n)))
    ensures n.state == ReactiveSendMasterNegativeAcknowledge ==>
              SynDiscipline(n, OnReactiveSendMasterNegativeAcknowledge(Start(n)))
    ensures n.state == ReactiveSendSlave ==> SynDiscipline(n, OnReactiveSendSlave(Start(n)))
    ensures n.state == ReactiveReceiveSlaveAcknowledge ==> SynDiscipline(n, OnReactiveReceiveSlaveAcknowledge(Start(n), i.b))
  {
    hide LogicalCrc, IsMaster, SlaveOf, TypeOf, KindOf, Exts, Part, Stuff, Unstuff, ActiveIdle, HoldsMaster;
    WireHasNoSyn(n.passive.tel.slave + [n.passive.tel.slaveCrc]);
  }

  lemma SynByVerdict(n: Node, i: Input)
    requires Inv(n) && n.state == RequestBus
    ensures SynDiscipline(n, OnRequestBus(Start(n), i.b, i.result))
  {
    hide LogicalCrc, IsMaster, SlaveOf, TypeOf, KindOf, ValidMaster, Exts, Part, Stuff, Unstuff, Listening, ReplyInHand;
    WireHasNoSyn(n.active.tel.master + [n.active.tel.masterCrc]);
    if HoldsMaster(n.active.tel) {
      MasterIsPart(n.active.tel);
    }
  }

  lemma SynByActive(n: Node, i: Input)
    requires Inv(n)
    ensures n.state == ActiveSendMaster ==> SynDiscipline(n, OnActiveSendMaster(Start(n), i.b))
    ensures n.state == ActiveReceiveMasterAcknowledge ==> SynDiscipline(n, OnActiveReceiveMasterAcknowledge(Start(n), i.b))
  {
    hide LogicalCrc, IsMaster, SlaveOf, TypeOf, KindOf, ValidMaster, Exts, Part, Stuff, Unstuff, Listening, ActiveIdle,
         ReplyInHand;
    WireHasNoSyn(n.active.tel.master + [n.active.tel.masterCrc]);
    if HoldsMaster(n.active.tel) {
      MasterIsPart(n.active.tel);
    }
  }

  lemma SynByRest(n: Node, i: Input)
    requires Inv(n)
    ensures n.state == ActiveReceiveSlave ==> SynDiscipline(n, OnActiveReceiveSlave(Start(n), i.b))
    ensures n.state == ActiveSendSlavePositiveAcknowledge ==> SynDiscipline(n, OnActiveSendSlavePositiveAcknowledge(Start(n)))
    ensures n.state == ActiveSendSlaveNegativeAcknowledge ==> SynDiscipline(n, OnActiveSendSlaveNegativeAcknowledge(Start(n)))
    ensures n.state == ReleaseBus ==> SynDiscipline(n, OnReleaseBus(Start(n)))
  {
    hide StateInv, IsMaster, SlaveOf, Unstuff, CreateSlave;
  }

  lemma SynExactlyOnRelease(n: Node, i: Input)
    requires Inv(n)
    ensures Step(n, i).write == Some(SYN) <==> n.state != ReleaseBus && Step(n, i).node.state == ReleaseBus
  {
    hide Inv, OnPassiveReceiveMaster, OnPassiveReceiveMasterAcknowledge, OnPassiveReceiveSlave,
         OnPassiveReceiveSlaveAcknowledge, OnReactiveSendMasterPositiveAcknowledge, OnReactiveSendMasterNegativeAcknowledge,
         OnReactiveSendSlave, OnReactiveReceiveSlaveAcknowledge, OnRequestBus, OnActiveSendMaster,
         OnActiveReceiveMasterAcknowledge, OnActiveReceiveSlave, OnActiveSendSlavePositiveAcknowledge,
         OnActiveSendSlaveNegativeAcknowledge, OnReleaseBus;
    if n.state == PassiveReceiveMaster {
      SynByPassiveMaster(n, i);
    }
    if n.state == RequestBus {
      SynByVerdict(n, i);
    }
    SynByPassive(n, i);
    SynByReactive(n, i);
    SynByActive(n, i);
    SynByRest(n, i);
  }

  /** While observing, only a complete part addressed to us makes the node write. */
  lemma ForeignPartCausesNoWrite(n: Node, i: Input)
    requires n.state == PassiveReceiveMaster || n.state == PassiveReceiveMasterAcknowledge ||
             n.state == PassiveReceiveSlave || n.state == PassiveReceiveSlaveAcknowledge
    requires Step(n, i).write.Some?
    ensures n.state == PassiveReceiveMaster
    ensures var s := Unstuff(n.passive.master.bytes + [i.b]);
            |s| >= 2 && (s[1] == n.source || s[1] == n.target)
  {
    hide LogicalCrc, IsMaster, SlaveOf, TypeOf, KindOf, Unstuff, CreateMaster, CreateSlave;
  }

  // ---------- The slave reply ----------

  lemma ReplyStep(n: Node, i: Input)
    requires n.state == ReactiveSendSlave
    ensures var k, w := n.passive.slaveIndex, n.passive.slave.bytes;
            var m := n.(passive := n.passive.(slaveIndex := k + 1));
            Step(n, i) ==
            if k + 1 < |w| then Effect(m, Some(w[k + 1]), []) else Start(m.(state := ReactiveReceiveSlaveAcknowledge))
  {
  }

  /** The bytes read while the reply is being sent do not matter: the rest of it goes out. */
  lemma {:induction false} ReplyTail(n: Node, ins: seq<Input>)
    requires n.state == ReactiveSendSlave && n.passive.slaveIndex < |n.passive.slave.bytes|
    requires |ins| == |n.passive.slave.bytes| - n.passive.slaveIndex
    ensures Run(n, ins).writes == n.passive.slave.bytes[n.passive.slaveIndex + 1..]
    ensures Run(n, ins).node == n.(state := ReactiveReceiveSlaveAcknowledge,
                                   passive := n.passive.(slaveIndex := |n.passive.slave.bytes|))
    decreases |ins|
  {
    hide Step;
    var k, w := n.passive.slaveIndex, n.passive.slave.bytes;
    ReplyStep(n, ins[0]);
    if k + 1 < |w| {
      ReplyTail(Step(n, ins[0]).node, ins[1..]);
      assert w[k + 1..] == [w[k + 1]] + w[k + 2..];
    } else {
      assert ins[1..] == [];
    }
  }

  /** From the acknowledged request: the whole reply, whatever is read meanwhile. */
  lemma ReplyGoesOut(n: Node, ins: seq<Input>)
    requires Inv(n) && n.state == ReactiveSendMasterPositiveAcknowledge && n.passive.tel.kind == MasterSlave
    requires |ins| == |n.passive.slave.bytes| + 1
    ensures Run(n, ins).writes == Stuff(Part(n.passive.tel.slave))
    ensures Run(n, ins).node == n.(state := ReactiveReceiveSlaveAcknowledge,
                                passive := n.passive.(slaveIndex := |n.passive.slave.bytes|))
  {
    hide LogicalCrc, IsMaster, SlaveOf, TypeOf, KindOf, Exts, Part, Stuff, ActiveIdle, HoldsMaster, ReplyBuffer;
    ReplyIsPart(n.passive.tel);
    var m := Step(n, ins[0]).node;
    assert m == n.(state := ReactiveSendSlave) && Step(n, ins[0]).write == Some(n.passive.slave.bytes[0]);
    ReplyTail(m, ins[1..]);
    hide Step;
    assert n.passive.slave.bytes == [n.passive.slave.bytes[0]] + n.passive.slave.bytes[1..];
  }

  /** At the end of a reply: NAK repeats the whole reply once, anything else is silent and ends the exchange. */
  lemma ReplyRepeatsOnceOnNak(n: Node, i: Input, ins: seq<Input>)
    requires Inv(n) && n.state == ReactiveReceiveSlaveAcknowledge && |ins| == |n.passive.slave.bytes|
    ensures if i.b == NAK && !n.passive.slaveRepeated then
              && Run(n, [i] + ins).writes == Stuff(Part(n.passive.tel.slave))
              && Run(n, [i] + ins).node == n.(passive := n.passive.(slaveRepeated := true))
            else
              && Step(n, i).write == None
              && Step(n, i).node == n.(state := PassiveReceiveMaster, passive := IDLE_PASSIVE)
  {
    hide LogicalCrc, IsMaster, SlaveOf, TypeOf, KindOf, Exts, Part, Stuff, ActiveIdle, HoldsMaster, ReplyBuffer;
    ReplyIsPart(n.passive.tel);
    if i.b == NAK && !n.passive.slaveRepeated {
      var m := Step(n, i).node;
      var w := n.passive.slave.bytes;
      assert m == n.(state := ReactiveSendSlave, passive := n.passive.(slaveRepeated := true, slaveIndex := 0));
      assert Step(n, i).write == Some(w[0]);
      ReplyTail(m, ins);
      hide Step;
      assert ([i] + ins)[1..] == ins;
      assert w == [w[0]] + w[1..];
      assert n.(passive := n.passive.(slaveRepeated := true)) ==
             m.(state := ReactiveReceiveSlaveAcknowledge, passive := m.passive.(slaveIndex := |w|));
    }
  }

  /** The step that accepts a request to our slave writes ACK and prepares exactly the callback's reply. */
  lemma RequestIsAcknowledged(n: Node, i: Input, m: seq<byte>, s: seq<byte>)
    requires Inv(n) && n.state == PassiveReceiveMaster && i.b != SYN
    requires !Implausible(|n.passive.master.bytes|, i.b)
    requires var p := PushMaster(n.passive, i.b); |p.master.bytes| >= 6 + p.masterDbx
    requires ValidMaster(m) && m[1] == n.target && Unstuff(n.passive.master.bytes + [i.b]) == Part(m)
    requires ValidSlave(s) && (i.reply.Reduced() == Part(s) || (i.reply.Reduced() == s && s != [0]))
    ensures var e := Step(n, i);
            && e.write == Some(ACK) && e.outs == []
            && e.node.state == ReactiveSendMasterPositiveAcknowledge && e.node.passive.tel.kind == MasterSlave
            && e.node.passive.tel.master == m && e.node.passive.tel.slave == s
            && e.node.passive.slave.bytes == Stuff(Part(s))
  {
    hide LogicalCrc, IsMaster, SlaveOf, TypeOf, KindOf, ValidMaster, ValidSlave, Exts, Part, Stuff, Unstuff,
         CreateMaster, CreateSlave, Counted;
    KindByAddressee(n, m);
    PartBytes(m);
    SlaveOfMaster(n.source);
    var p := PushMaster(n.passive, i.b);
    PushCounted(n.passive, i.b);
    CreateMasterExact(p.tel, Part(m));
    var tel := CreateMaster(p.tel, Part(m));
    assert tel.masterState == SeqOk && tel.master == m && tel.kind == KindOf(m);
    CreateSlaveExact(tel, i.reply.Reduced());
    PartNotZero(s);
    var tel2 := CreateSlave(tel, i.reply.Reduced());
    assert tel2.slaveState == SeqOk && tel2.slave == s;
    ReplyIsPart(tel2);
  }

  lemma PartNotZero(s: seq<byte>)
    requires ValidSlave(s)
    ensures Part(s) != [0]
  {
    assert |Part(s)| >= 2;
  }

  /** The end of a reply that was acknowledged to be sent: a node in which the reply is still at hand. */
  lemma ReplySentInv(n: Node)
    requires Inv(n) && n.state == ReactiveSendMasterPositiveAcknowledge && n.passive.tel.kind == MasterSlave
    ensures Inv(n.(state := ReactiveReceiveSlaveAcknowledge, passive := n.passive.(slaveIndex := |n.passive.slave.bytes|)))
  {
    hide LogicalCrc, IsMaster, SlaveOf, TypeOf, KindOf, Exts, Part, Stuff, ValidMaster, ReplyBuffer;
  }

  lemma RepeatedInv(n: Node)
    requires Inv(n) && n.state == ReactiveReceiveSlaveAcknowledge
    ensures Inv(n.(passive := n.passive.(slaveRepeated := true)))
  {
    hide LogicalCrc, IsMaster, SlaveOf, TypeOf, KindOf, Exts, Part, Stuff, ValidMaster, ReplyBuffer;
  }

  /**
   * A request to our slave, complete with byte `i`, answered with s: whatever is read meanwhile, the node
   * writes ACK and the stuffed reply; on NAK, and only then, it writes the reply a second time; after
   * that, or after anything else, it is silent and idle.
   */
  lemma ReplyDiscipline(n: Node, i: Input, m: seq<byte>, s: seq<byte>,
                        sending: seq<Input>, first: Input, again: seq<Input>, second: Input)
    requires Inv(n) && n.state == PassiveReceiveMaster && i.b != SYN
    requires !Implausible(|n.passive.master.bytes|, i.b)
    requires var p := PushMaster(n.passive, i.b); |p.master.bytes| >= 6 + p.masterDbx
    requires ValidMaster(m) && m[1] == n.target && Unstuff(n.passive.master.bytes + [i.b]) == Part(m)
    requires ValidSlave(s) && (i.reply.Reduced() == Part(s) || (i.reply.Reduced() == s && s != [0]))
    requires |sending| == |Stuff(Part(s))| + 1 && |again| == |Stuff(Part(s))|
    ensures var w := Stuff(Part(s));
            var sent := Run(n, [i] + sending);
            && sent.writes == [ACK] + w
            && if first.b == NAK then
                 var resent := Run(sent.node, [first] + again);
                 resent.writes == w && Step(resent.node, second).write == None && Idle(Step(resent.node, second).node)
               else Step(sent.node, first).write == None && Idle(Step(sent.node, first).node)
  {
    hide Step, Inv, Stuff, Unstuff, Part, ValidMaster, ValidSlave, Implausible, PushMaster;
    RequestIsAcknowledged(n, i, m, s);
    GoodByte(n, i);
    var x := Step(n, i).node;
    assert ([i] + sending)[1..] == sending;
    ReplyGoesOut(x, sending);
    ReplySentInv(x);
    var y := Run(x, sending).node;
    assert NotRepeated(x) by { FreshReply(x); }
    ReplyRepeatsOnceOnNak(y, first, again);
    if first.b == NAK {
      RepeatedInv(y);
      ReplyRepeatsOnceOnNak(y.(passive := y.passive.(slaveRepeated := true)), second, again);
    }
  }

  predicate Idle(n: Node) {
    n.state == PassiveReceiveMaster && n.passive == IDLE_PASSIVE
  }

  predicate NotRepeated(n: Node) {
    !n.passive.slaveRepeated
  }

  lemma FreshReply(n: Node)
    requires Inv(n) && n.state == ReactiveSendMasterPositiveAcknowledge
    ensures NotRepeated(n)
  {
    hide IsMaster, SlaveOf, ActiveIdle, MasterInHand, ReplyInHand;
  }
}
