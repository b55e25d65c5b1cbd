/** An active exchange ends: a bounded number of bytes, each part at most twice. */
module ActiveExchange {
  import opened Bytes
  import opened Stuffing
  import opened Crc
  import opened Telegram
  import opened Handler
  import opened HandlerInvariant
  import opened HandlerSteps

  predicate IsActive(s: HandlerState) {
    s == ActiveSendMaster || s == ActiveReceiveMasterAcknowledge || s == ActiveReceiveSlave ||
    s == ActiveSendSlavePositiveAcknowledge || s == ActiveSendSlaveNegativeAcknowledge
  }

  /** Bytes a slave part may still take that are not 0xA9: NN, 16 data bytes and the CRC at most. */
  function SlaveRemaining(a: Active): int {
    if a.slave.bytes == [] then 18 else 2 + a.slaveDbx - |a.slave.bytes|
  }

  /** The cost of a second slave part with its acknowledge, while it is still allowed. */
  function SlaveRetry(a: Active): nat {
    if a.slaveRepeated then 0 else 19
  }

  function MasterRetry(a: Active): nat {
    if a.masterRepeated then 0 else |a.master.bytes| + 1
  }

  /** An upper bound on the bytes other than 0xA9 that the exchange can still take. */
  function Budget(n: Node): int {
    var a := n.active;
    match n.state
    case ActiveSendMaster => |a.master.bytes| - a.masterIndex + 1 + MasterRetry(a) + 19 + SlaveRetry(a)
    case ActiveReceiveMasterAcknowledge => 1 + MasterRetry(a) + 19 + SlaveRetry(a)
    case ActiveReceiveSlave => SlaveRemaining(a) + 1 + SlaveRetry(a)
    case ActiveSendSlaveNegativeAcknowledge => 1 + SlaveRetry(a)
    case _ => 1
  }

  /** 0xA9 inside a slave part that has begun: it announces one more byte. */
  predicate IsInnerEscape(n: Node, b: byte) {
    n.state == ActiveReceiveSlave && n.active.slave.bytes != [] && b == EXT
  }

  lemma BudgetPositive(n: Node)
    requires Inv(n) && IsActive(n.state)
    ensures Budget(n) >= 1
  {
    hide LogicalCrc, IsMaster, SlaveOf, TypeOf, KindOf, ValidMaster, ValidSlave, Exts, Part, Stuff, Unstuff,
         MasterBuffer, Listening, HoldsMaster, HoldsSlave, ReplyInHand, MasterInHand, SlaveIdle;
  }

  /** What one byte in an active state may do to the exchange. */
  predicate Progress(n: Node, b: byte, m: Node) {
    if !IsActive(m.state) then m.active == IDLE_ACTIVE
    else
      && (if IsInnerEscape(n, b) then m.state == n.state && Budget(m) == Budget(n) else Budget(m) < Budget(n))
      && MasterAllowance(m) + (if RestartsMaster(n, m) then 1 else 0) <= MasterAllowance(n)
      && SlaveAllowance(m) + (if StartsSlave(n, m) then 1 else 0) <= SlaveAllowance(n)
  }

  predicate RestartsMaster(n: Node, m: Node) {
    n.state == ActiveReceiveMasterAcknowledge && m.state == ActiveSendMaster
  }

  predicate StartsSlave(n: Node, m: Node) {
    n.state != ActiveReceiveSlave && m.state == ActiveReceiveSlave
  }

  function MasterAllowance(n: Node): nat {
    if n.active.masterRepeated then 0 else 1
  }

  /** Slave parts the node may still start. */
  function SlaveAllowance(n: Node): nat {
    match n.state
    case ActiveSendMaster => 2
    case ActiveReceiveMasterAcknowledge => 2
    case ActiveReceiveSlave => if n.active.slaveRepeated then 0 else 1
    case ActiveSendSlaveNegativeAcknowledge => if n.active.slaveRepeated then 0 else 1
    case _ => 0
  }

  lemma MasterProgress(n: Node, b: byte)
    requires Inv(n) && n.state == ActiveSendMaster
    ensures Progress(n, b, OnActiveSendMaster(Start(n), b).node)
  {
    hide LogicalCrc, IsMaster, SlaveOf, TypeOf, KindOf, ValidMaster, ValidSlave, Exts, Part, Stuff, Unstuff,
         MasterBuffer, Listening, HoldsMaster, HoldsSlave, ReplyInHand, MasterInHand, SlaveIdle;
  }

  lemma MasterAckProgress(n: Node, b: byte)
    requires Inv(n) && n.state == ActiveReceiveMasterAcknowledge
    ensures Progress(n, b, OnActiveReceiveMasterAcknowledge(Start(n), b).node)
  {
    hide LogicalCrc, IsMaster, SlaveOf, TypeOf, KindOf, ValidMaster, ValidSlave, Exts, Part, Stuff, Unstuff,
         MasterBuffer, Listening, HoldsMaster, HoldsSlave, ReplyInHand, MasterInHand, SlaveIdle;
  }

  lemma AfterReply(n: Node)
    requires n.state == ActiveReceiveSlave
    ensures var z := ActiveSlaveComplete(Start(n)).node;
            && z.source == n.source && z.target == n.target && z.passive == n.passive
            && z.active.message == n.active.message && z.active.master == n.active.master
            && z.active.masterRepeated == n.active.masterRepeated && z.active.slaveRepeated == n.active.slaveRepeated
            && (z.state == ActiveSendSlavePositiveAcknowledge || z.state == ActiveSendSlaveNegativeAcknowledge)
  {
    hide CreateSlave, Unstuff;
  }

  lemma SlaveEndProgress(n: Node, b: byte)
    requires Inv(n) && n.state == ActiveReceiveSlave && !(n.active.slave.bytes == [] && b > MAX_DATA_BYTES)
    requires var z := PushActiveSlave(n.active, b); |z.slave.bytes| >= 2 + z.slaveDbx
    ensures Progress(n, b, OnActiveReceiveSlave(Start(n), b).node)
  {
    hide LogicalCrc, IsMaster, SlaveOf, TypeOf, KindOf, ValidMaster, ValidSlave, Exts, Part, Stuff, Unstuff,
         MasterBuffer, Listening, HoldsMaster, HoldsSlave, ReplyInHand, MasterInHand, SlaveIdle, CreateSlave, ActiveSlaveComplete;
    AfterReply(n.(active := PushActiveSlave(n.active, b)));
    assert |PushActiveSlave(n.active, b).slave.bytes| == |n.active.slave.bytes| + 1;
  }

  lemma SlaveByteProgress(n: Node, b: byte)
    requires Inv(n) && n.state == ActiveReceiveSlave
    requires var z := PushActiveSlave(n.active, b);
             (n.active.slave.bytes == [] && b > MAX_DATA_BYTES) || |z.slave.bytes| < 2 + z.slaveDbx
    ensures Progress(n, b, OnActiveReceiveSlave(Start(n), b).node)
  {
    hide LogicalCrc, IsMaster, SlaveOf, TypeOf, KindOf, ValidMaster, ValidSlave, Exts, Part, Stuff, Unstuff,
         MasterBuffer, Listening, HoldsMaster, HoldsSlave, ReplyInHand, MasterInHand, SlaveIdle, CreateSlave, ActiveSlaveComplete;
    var a := n.active;
    var z := PushActiveSlave(a, b);
    assert |z.slave.bytes| == |a.slave.bytes| + 1;
    assert a.slave.bytes != [] ==> z.slaveDbx == a.slaveDbx + if b == EXT then 1 else 0;
  }

  lemma SlaveProgress(n: Node, b: byte)
    requires Inv(n) && n.state == ActiveReceiveSlave
    ensures Progress(n, b, OnActiveReceiveSlave(Start(n), b).node)
  {
    hide Inv, Progress, OnActiveReceiveSlave;
    var z := PushActiveSlave(n.active, b);
    if (n.active.slave.bytes == [] && b > MAX_DATA_BYTES) || |z.slave.bytes| < 2 + z.slaveDbx {
      SlaveByteProgress(n, b);
    } else {
      SlaveEndProgress(n, b);
    }
  }

  lemma AcknowledgeProgress(n: Node, b: byte)
    requires Inv(n)
    ensures n.state == ActiveSendSlavePositiveAcknowledge ==>
              Progress(n, b, OnActiveSendSlavePositiveAcknowledge(Start(n)).node)
    ensures n.state == ActiveSendSlaveNegativeAcknowledge ==>
              Progress(n, b, OnActiveSendSlaveNegativeAcknowledge(Start(n)).node)
  {
    hide LogicalCrc, IsMaster, SlaveOf, TypeOf, KindOf, ValidMaster, ValidSlave, Exts, Part, Stuff, Unstuff,
         MasterBuffer, Listening, HoldsMaster, HoldsSlave, ReplyInHand, MasterInHand, SlaveIdle;
  }

  /** Every byte either ends the exchange with nothing left over, or uses up budget, except an inner 0xA9. */
  lemma ActiveProgress(n: Node, i: Input)
    requires Inv(n) && IsActive(n.state)
    ensures Progress(n, i.b, Step(n, i).node)
  {
    hide Inv, Progress, OnActiveSendMaster, OnActiveReceiveMasterAcknowledge, OnActiveReceiveSlave,
         OnActiveSendSlavePositiveAcknowledge, OnActiveSendSlaveNegativeAcknowledge;
    match n.state {
      case ActiveSendMaster => MasterProgress(n, i.b);
      case ActiveReceiveMasterAcknowledge => MasterAckProgress(n, i.b);
      case ActiveReceiveSlave => SlaveProgress(n, i.b);
      case _ => AcknowledgeProgress(n, i.b);
    }
  }

  // ---------- Runs ----------

  /** The node is in an active state before every byte of the run and after it. */
  predicate StaysActive(n: Node, ins: seq<Input>)
    decreases |ins|
  {
    IsActive(n.state) && (ins != [] ==> StaysActive(Step(n, ins[0]).node, ins[1..]))
  }

  function NonExts(ins: seq<Input>): nat {
    if ins == [] then 0 else (if ins[0].b == EXT then 0 else 1) + NonExts(ins[1..])
  }

  lemma {:induction false} BudgetBoundsRun(n: Node, ins: seq<Input>)
    requires Inv(n) && StaysActive(n, ins)
    ensures NonExts(ins) < Budget(n)
    decreases |ins|
  {
    hide Inv, Step, Budget, MasterAllowance, SlaveAllowance, RestartsMaster, StartsSlave;
    BudgetPositive(n);
    if ins != [] {
      GoodByte(n, ins[0]);
      ActiveProgress(n, ins[0]);
      BudgetBoundsRun(Step(n, ins[0]).node, ins[1..]);
    }
  }

  /** Times the master part is started again, and times a slave part is started. */
  function MasterRestarts(n: Node, ins: seq<Input>): nat
    decreases |ins|
  {
    if ins == [] then 0
    else
      var m := Step(n, ins[0]).node;
      (if RestartsMaster(n, m) then 1 else 0) + MasterRestarts(m, ins[1..])
  }

  function SlaveStarts(n: Node, ins: seq<Input>): nat
    decreases |ins|
  {
    if ins == [] then 0
    else
      var m := Step(n, ins[0]).node;
      (if StartsSlave(n, m) then 1 else 0) + SlaveStarts(m, ins[1..])
  }

  lemma {:induction false} EachPartAtMostTwice(n: Node, ins: seq<Input>)
    requires Inv(n) && StaysActive(n, ins)
    ensures MasterRestarts(n, ins) <= MasterAllowance(n) && SlaveStarts(n, ins) <= SlaveAllowance(n)
    decreases |ins|
  {
    hide Inv, Step, MasterAllowance, SlaveAllowance, Budget, RestartsMaster, StartsSlave;
    if ins != [] {
      GoodByte(n, ins[0]);
      ActiveProgress(n, ins[0]);
      EachPartAtMostTwice(Step(n, ins[0]).node, ins[1..]);
    }
  }

  lemma EntryBudget(n: Node)
    requires Inv(n) && n.state == ActiveSendMaster && n.active.masterIndex == 1
    ensures Budget(n) <= 127
  {
    hide LogicalCrc, IsMaster, SlaveOf, TypeOf, KindOf, Exts, Stuff, Unstuff, MasterCounted;
    StuffLength(Part(n.active.tel.master));
  }

  /**
   * From entering active_send_master, whatever the bus shows: fewer than 127 bytes other than 0xA9 are
   * handled in active states, the master part is sent at most twice, the slave part read at most twice.
   */
  lemma ActiveExchangeEnds(n: Node, ins: seq<Input>)
    requires Inv(n) && n.state == ActiveSendMaster && n.active.masterIndex == 1 && StaysActive(n, ins)
    ensures NonExts(ins) < 127
    ensures 1 + MasterRestarts(n, ins) <= 2 && SlaveStarts(n, ins) <= 2
  {
    hide Inv, Budget;
    BudgetBoundsRun(n, ins);
    EntryBudget(n);
    EachPartAtMostTwice(n, ins);
  }
}
