/** What every run of a handler keeps, and what every telegram it delivers is worth. */
module HandlerInvariant {
  import opened Bytes
  import opened Stuffing
  import opened Crc
  import opened Telegram
  import opened Handler
  import Request

  // ---------- The invariant ----------

  predicate SlaveIdle(p: Passive) {
    p.slave == EMPTY && p.slaveIndex == 0 && p.slaveDbx == 0 && !p.slaveRepeated
  }

  /** No master part has begun: nothing is buffered, or a lost arbitration left a byte that no master can send. */
  predicate NotStarted(p: Passive) {
    p.master.bytes == [] || !IsMaster(p.master.bytes[0])
  }

  /** The escape count of a master part being received. */
  predicate MasterCounted(p: Passive) {
    var w := p.master.bytes;
    && p.master.extended == (w != [])
    && (w == [] ==> p.masterDbx == 0)
    && (!NotStarted(p) ==> if |w| < 5 then p.masterDbx == 0 && EXT !in w else Counted(w, p.masterDbx) && |w| < 6 + p.masterDbx)
  }

  /** A plain header, then as many bytes expected as NN says plus one per 0xA9. */
  predicate Counted(w: seq<byte>, dbx: nat) {
    |w| >= 5 && EXT !in w[..5] && w[4] <= MAX_DATA_BYTES && dbx == w[4] + Exts(w)
  }

  predicate Listening(p: Passive) {
    p.tel == CLEARED && SlaveIdle(p) && MasterCounted(p)
  }

  predicate ActiveIdle(n: Node) {
    var a := n.active;
    && a.master == EMPTY && a.masterIndex == 0 && !a.masterRepeated
    && a.slave == EMPTY && a.slaveDbx == 0 && !a.slaveRepeated
    && (a.message ==> HoldsMaster(a.tel) && a.tel.master[0] == n.source)
  }

  /** A message is being transmitted: the buffer holds its wire form. */
  predicate ActiveBusy(n: Node) {
    var a := n.active;
    a.message && HoldsMaster(a.tel) && a.tel.master[0] == n.source && a.master == MasterBuffer(a.tel)
  }

  predicate ActiveSlaveFresh(a: Active) {
    a.slave == EMPTY && a.slaveDbx == 0
  }

  predicate ActiveSlaveCounted(a: Active) {
    var w := a.slave.bytes;
    && a.slave.extended == (w != [])
    && (w == [] ==> a.slaveDbx == 0)
    && (w != [] ==> w[0] <= MAX_DATA_BYTES && a.slaveDbx == w[0] + Exts(w) && |w| < 2 + a.slaveDbx)
  }

  /** A received master part with its CRC, accepted. */
  predicate MasterInHand(p: Passive) {
    HoldsMaster(p.tel) && p.master == Buffer(Part(p.tel.master), false)
  }

  /** A reply is being sent: the buffer holds its wire form. */
  predicate ReplyInHand(p: Passive) {
    MasterInHand(p) && p.tel.kind == MasterSlave && HoldsSlave(p.tel) && p.slave == ReplyBuffer(p.tel)
  }

  predicate StateInv(n: Node) {
    var p, a := n.passive, n.active;
    match n.state
    case PassiveReceiveMaster => Listening(p) && ActiveIdle(n)
    case PassiveReceiveMasterAcknowledge =>
      SlaveIdle(p) && (p.tel.kind == MasterMaster || p.tel.kind == MasterSlave) && ActiveIdle(n)
    case PassiveReceiveSlave => p.slaveIndex == 0 && ActiveIdle(n)
    case PassiveReceiveSlaveAcknowledge => p.slaveIndex == 0 && ActiveIdle(n)
    case ReactiveSendMasterPositiveAcknowledge =>
      && ActiveIdle(n) && p.slaveIndex == 0 && !p.slaveRepeated
      && ((MasterInHand(p) && p.tel.kind == MasterMaster && p.tel.slave == []) || ReplyInHand(p))
    case ReactiveSendMasterNegativeAcknowledge =>
      p.tel == CLEARED && SlaveIdle(p) && p.master == EMPTY && p.masterDbx == 0 && ActiveIdle(n)
    case ReactiveSendSlave => ActiveIdle(n) && ReplyInHand(p) && p.slaveIndex < |p.slave.bytes|
    case ReactiveReceiveSlaveAcknowledge => ActiveIdle(n) && ReplyInHand(p) && p.slaveIndex == |p.slave.bytes|
    case RequestBus => Listening(p) && NotStarted(p) && ActiveIdle(n) && a.message
    case ActiveSendMaster =>
      Listening(p) && ActiveBusy(n) && a.masterIndex < |a.master.bytes| && ActiveSlaveFresh(a) && !a.slaveRepeated
    case ActiveReceiveMasterAcknowledge =>
      Listening(p) && ActiveBusy(n) && a.tel.kind != Broadcast && ActiveSlaveFresh(a) && !a.slaveRepeated
    case ActiveReceiveSlave => Listening(p) && ActiveBusy(n) && a.tel.kind == MasterSlave && ActiveSlaveCounted(a)
    case ActiveSendSlavePositiveAcknowledge =>
      && Listening(p) && ActiveBusy(n) && a.tel.kind == MasterSlave
      && HoldsSlave(a.tel) && a.slave == Buffer(Part(a.tel.slave), false)
    case ActiveSendSlaveNegativeAcknowledge =>
      Listening(p) && ActiveBusy(n) && a.tel.kind == MasterSlave && ActiveSlaveFresh(a)
    case ReleaseBus => Listening(p) && ActiveIdle(n)
  }

  predicate Inv(n: Node) {
    IsMaster(n.source) && n.target == SlaveOf(n.source) && StateInv(n)
  }

  // ---------- What a delivered telegram is worth ----------

  /**
   * A delivery by role: the master part is valid, its CRC came with the bytes buffered, and a slave
   * part likewise. Passive master-master and master-slave telegrams are delivered on the observed
   * acknowledge alone and promise nothing.
   */
  ghost predicate Sound(n: Node, b: byte, o: Output) {
    o.Delivered? ==>
      match o.role
      case PassiveMessage =>
        o.kind == Broadcast ==>
          && ValidMaster(o.master) && KindOf(o.master) == Broadcast && o.slave == []
          && Unstuff(n.passive.master.bytes + [b]) == Part(o.master)
      case ReactiveMessage =>
        && ValidMaster(o.master) && KindOf(o.master) == o.kind && n.passive.master.bytes == Part(o.master)
        && ((o.kind == MasterMaster && o.slave == []) ||
            (o.kind == MasterSlave && ValidSlave(o.slave) && n.passive.slave.bytes == Stuff(Part(o.slave))))
      case ActiveMessage =>
        if o.kind == MasterSlave then
          && ValidMaster(o.master) && KindOf(o.master) == MasterSlave && o.master[0] == n.source
          && n.active.master.bytes == Stuff(Part(o.master))
          && ValidSlave(o.slave) && n.active.slave.bytes == Part(o.slave)
        else
          && o.slave == []
          && exists m :: ValidMaster(m) && KindOf(m) == o.kind && m[0] == n.source && o.master == Stuff(Part(m))
  }

  /** Arbitration is entered only from outside, and transmission only by way of arbitration. */
  predicate EntersInOrder(n: Node, m: Node) {
    && (m.state == RequestBus ==> n.state == RequestBus)
    && (m.state == ActiveSendMaster ==>
          n.state == RequestBus || n.state == ActiveSendMaster || n.state == ActiveReceiveMasterAcknowledge)
  }

  /** A step that keeps the invariant, never takes an illegal transition and delivers soundly. */
  ghost predicate GoodStep(n: Node, b: byte, e: Effect) {
    && Inv(e.node) && e.node.source == n.source && EntersInOrder(n, e.node)
    && forall i :: 0 <= i < |e.outs| ==>
         !(e.outs[i].Failed? && e.outs[i].error == IllegalFsmTransition) && Sound(n, b, e.outs[i])
  }

  // ---------- Small facts ----------

  lemma ExtsSnoc(w: seq<byte>, b: byte)
    ensures Exts(w + [b]) == Exts(w) + (if b == EXT then 1 else 0)
  {
    assert (w + [b])[..|w|] == w;
  }

  lemma {:induction false} NoExts(w: seq<byte>)
    requires EXT !in w
    ensures Exts(w) == 0
  {
    if w != [] {
      NoExts(w[..|w| - 1]);
    }
  }

  /** Unstuffing drops at most one byte per 0xA9. */
  lemma {:induction false} UnstuffShrinks(w: seq<byte>)
    ensures |Unstuff(w)| >= |w| - Exts(w) && 2 * |Unstuff(w)| >= |w|
  {
    if w != [] {
      var k := if |w| >= 2 && IsEscape(w[0], w[1]) then 2 else 1;
      UnstuffShrinks(w[k..]);
      ExtsConcat(w[..k], w[k..]);
      assert w == w[..k] + w[k..];
      if k == 2 {
        assert w[..2] == [EXT] + [w[1]];
        ExtsSnoc([EXT], w[1]);
        ExtsSnoc([], EXT);
        assert [] + [EXT] == [EXT];
      }
    }
  }

  /** Bytes before the first 0xA9 stay in place. */
  lemma {:induction false} UnstuffPlainPrefix(w: seq<byte>, k: nat)
    requires k <= |w| && EXT !in w[..k]
    ensures |Unstuff(w)| >= k && Unstuff(w)[..k] == w[..k]
  {
    if k > 0 {
      assert w[..k][0] == w[0];
      assert w[1..][..k - 1] == w[..k][1..];
      UnstuffPlainPrefix(w[1..], k - 1);
      assert Unstuff(w)[..k] == [w[0]] + Unstuff(w[1..])[..k - 1];
      assert w[..k] == [w[0]] + w[1..][..k - 1];
    }
  }

  lemma UnstuffHead(w: seq<byte>)
    requires w != []
    ensures |Unstuff(w)| >= 1
    ensures if w[0] == EXT then NeedsEscape(Unstuff(w)[0]) else Unstuff(w)[0] == w[0]
  {
  }

  lemma MasterNeedsNoEscape(b: byte)
    requires IsMaster(b)
    ensures !NeedsEscape(b)
  {
  }

  lemma StuffNonEmpty(s: seq<byte>)
    requires s != []
    ensures |Stuff(s)| >= |s|
  {
    StuffLength(s);
  }

  // ---------- The length test ----------

  /** One more master byte keeps the count, and when the test fires the part is complete. */
  lemma PushCounted(p: Passive, b: byte)
    requires MasterCounted(p) && !Implausible(|p.master.bytes|, b)
    ensures var q := PushMaster(p, b);
            && q.master.bytes == p.master.bytes + [b] && q.master.extended
            && (|q.master.bytes| < 6 + q.masterDbx ==> MasterCounted(q))
            && (|q.master.bytes| >= 6 + q.masterDbx && IsMaster(q.master.bytes[0]) ==> Counted(q.master.bytes, q.masterDbx))
  {
    var w := p.master.bytes;
    ExtsSnoc(w, b);
    var v := w + [b];
    if w == [] {
      MasterNeedsNoEscape(b);
    }
    if |w| < 5 && EXT !in w {
      NoExts(w);
      if |w| == 4 {
        assert v[..5] == v;
      }
    }
    if |w| >= 5 {
      assert v[..5] == w[..5];
    }
    hide IsMaster, Exts;
  }

  /** A part that the length test completed and createMaster accepted carried its CRC. */
  lemma AcceptedCarriesCrc(t: Telegram, w: seq<byte>, dbx: nat)
    requires |w| >= 6 + dbx && (IsMaster(w[0]) ==> Counted(w, dbx))
    requires CreateMaster(t, Unstuff(w)).masterState == SeqOk
    ensures var r := CreateMaster(t, Unstuff(w)); HoldsMaster(r) && Unstuff(w) == Part(r.master)
  {
    hide LogicalCrc, IsMaster, TypeOf, Unstuff, Exts;
    var s := Unstuff(w);
    CreateMasterExact(t, s);
    UnstuffHead(w);
    UnstuffShrinks(w);
    MasterNeedsNoEscape(s[0]);
    UnstuffPlainPrefix(w, 5);
    assert s[..5][4] == w[..5][4];
  }
}
