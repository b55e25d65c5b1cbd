/**
 * How much of the wire an observed exchange takes: a lower bound on the bytes other than 0xA9 that an
 * observing node still has to read before it can deliver a given master-slave telegram.
 */
module Effort {
  import opened Bytes
  import opened Stuffing
  import opened Crc
  import opened Telegram
  import opened Handler
  import opened HandlerInvariant
  import opened HandlerSteps
  import opened Feed

  function Plain(w: seq<byte>): int {
    |w| - Exts(w)
  }

  function PlainByte(b: byte): nat {
    if b == EXT then 0 else 1
  }

  function Plains(ins: seq<Input>): nat {
    if ins == [] then 0 else PlainByte(ins[0].b) + Plains(ins[1..])
  }

  lemma PlainSnoc(w: seq<byte>, b: byte)
    ensures Plain(w + [b]) == Plain(w) + PlainByte(b) && Plain(w) >= 0
  {
    ExtsSnoc(w, b);
    ExtsConcat([], w);
  }

  lemma PlainConcat(a: seq<byte>, b: seq<byte>)
    ensures Plain(a + b) == Plain(a) + Plain(b)
  {
    ExtsConcat(a, b);
  }

  lemma {:induction false} PlainsCarried(ins: seq<Input>, w: seq<byte>)
    requires Carries(ins, w)
    ensures Plains(ins) == Plain(w)
  {
    hide Exts;
    if w == [] {
      NoExts(w);
    } else {
      PlainsCarried(ins[1..], w[1..]);
      assert w == [w[0]] + w[1..];
      PlainConcat([w[0]], w[1..]);
      PlainOne(w[0]);
    }
  }

  lemma PlainOne(b: byte)
    ensures Plain([b]) == PlainByte(b)
  {
    NoExts([]);
    ExtsSnoc([], b);
    assert [] + [b] == [b];
  }

  /** Stuffed bytes hold as many bytes other than 0xA9 as they stand for, and do not end with 0xA9. */
  lemma PlainOfStuffed(u: seq<byte>)
    ensures Plain(Stuff(u)) == |u|
    ensures u != [] ==> Stuff(u) != [] && Stuff(u)[|Stuff(u)| - 1] != EXT
  {
    hide Stuff, Exts;
    FrameEnd(u, |Stuff(u)|);
    assert Stuff(u)[..|Stuff(u)|] == Stuff(u);
    if u != [] {
      StuffLength(u);
      var l := |Stuff(u)| - 1;
      FrameEnd(u, l);
      assert Stuff(u) == Stuff(u)[..l] + [Stuff(u)[l]];
      PlainSnoc(Stuff(u)[..l], Stuff(u)[l]);
    }
  }

  // ---------- The observing states ----------

  predicate Observing(s: HandlerState) {
    || s == PassiveReceiveMaster || s == PassiveReceiveMasterAcknowledge
    || s == PassiveReceiveSlave || s == PassiveReceiveSlaveAcknowledge
    || s == ReactiveSendMasterPositiveAcknowledge || s == ReactiveSendMasterNegativeAcknowledge
    || s == ReactiveSendSlave || s == ReactiveReceiveSlaveAcknowledge || s == ReleaseBus
  }

  /** The escape count of a slave part being observed. */
  predicate SlaveCounted(p: Passive) {
    var v := p.slave.bytes;
    && p.slave.extended == (v != [])
    && (v == [] ==> p.slaveDbx == 0)
    && (v != [] ==> v[0] <= MAX_DATA_BYTES && p.slaveDbx == v[0] + Exts(v))
  }

  predicate Tracked(n: Node) {
    Inv(n) && Observing(n.state) && (n.state == PassiveReceiveSlave ==> SlaveCounted(n.passive))
  }

  /** Both parts with their CRCs and both acknowledges. */
  function Whole(m: seq<byte>, s: seq<byte>): int {
    |m| + 1 + 1 + |s| + 1 + 1
  }

  /** What is still missing before the telegram of m and s can be delivered. */
  function Need(n: Node, m: seq<byte>, s: seq<byte>): int {
    var p := n.passive;
    match n.state
    case PassiveReceiveMaster => Whole(m, s) - Plain(p.master.bytes)
    case ReleaseBus => Whole(m, s) - Plain(p.master.bytes)
    case PassiveReceiveMasterAcknowledge =>
      if p.tel.master != m then Whole(m, s) else if p.tel.slave == s then 1 else |s| + 3
    case PassiveReceiveSlave =>
      if p.tel.master != m then Whole(m, s) else if p.tel.slave == s then 1 else |s| + 2 - Plain(p.slave.bytes)
    case PassiveReceiveSlaveAcknowledge =>
      if p.tel.master != m then Whole(m, s) else if p.tel.slave == s then 1 else |s| + 2
    case _ => Whole(m, s)
  }

  lemma NeedAtMostWhole(n: Node, m: seq<byte>, s: seq<byte>)
    ensures Need(n, m, s) <= Whole(m, s)
    ensures n.state == PassiveReceiveMaster && n.passive.master == EMPTY ==> Need(n, m, s) == Whole(m, s)
  {
    hide Exts;
    ExtsConcat([], n.passive.master.bytes);
    ExtsConcat([], n.passive.slave.bytes);
    NoExts([]);
  }

  function Target(m: seq<byte>, s: seq<byte>): Output {
    Delivered(PassiveMessage, MasterSlave, m, s)
  }

  /** One byte lessens the need by at most one, and by nothing if it is 0xA9. */
  ghost predicate PaysAtMostOne(n: Node, b: byte, e: Effect, m: seq<byte>, s: seq<byte>) {
    && Observing(e.node.state) && (e.node.state == PassiveReceiveSlave ==> SlaveCounted(e.node.passive))
    && Need(n, m, s) <= PlainByte(b) + Need(e.node, m, s)
    && (Target(m, s) in e.outs ==> Need(n, m, s) <= PlainByte(b))
  }

  // ---------- Step by step ----------

  /** A master part judged to be m took all of m and its CRC. */
  lemma JudgedMasterIsLong(p: Passive, m: seq<byte>)
    requires p.tel == CLEARED && ValidMaster(m) && p.master.extended
    requires |p.master.bytes| >= 6 + p.masterDbx && (IsMaster(p.master.bytes[0]) ==> Counted(p.master.bytes, p.masterDbx))
    requires CreateMaster(p.tel, p.master.Reduced()).master == m
    ensures Plain(p.master.bytes) >= |m| + 1
  {
    hide LogicalCrc, IsMaster, TypeOf, Unstuff, Exts;
    var w := p.master.bytes;
    var u := Unstuff(w);
    UnstuffHead(w);
    MasterNeedsNoEscape(u[0]);
    UnstuffShrinks(w);
    UnstuffPlainPrefix(w, 5);
    assert u[..5][4] == w[..5][4];
  }

  lemma JudgedStays(t: Telegram, s: seq<byte>)
    ensures CreateMaster(t, s).slave == t.slave && CreateSlave(t, s).master == t.master && CreateSlave(t, s).kind == t.kind
  {
    hide LogicalCrc;
  }

  /** A judged node goes on to the acknowledge, answers, or has nothing received. */
  predicate Turned(t: Telegram, e: Effect) {
    && (forall o :: o in e.outs && o.Delivered? ==> o.kind == Broadcast)
    && Observing(e.node.state)
    && (e.node.state == PassiveReceiveMaster || e.node.state == ReleaseBus ==> e.node.passive.master == EMPTY)
    && (e.node.state == PassiveReceiveMasterAcknowledge ==> e.node.passive.tel == t)
    && e.node.state != PassiveReceiveSlave && e.node.state != PassiveReceiveSlaveAcknowledge
  }

  lemma AfterAcceptance(n: Node, reply: Buffer)
    requires n.state == PassiveReceiveMaster
    ensures Turned(n.passive.tel, MasterAccepted(Start(n), reply))
  {
    hide CreateSlave, LogicalCrc, Unstuff, AddressedTo, ReplyBuffer;
  }

  lemma AfterRejection(n: Node)
    requires n.state == PassiveReceiveMaster
    ensures Turned(n.passive.tel, MasterRejected(Start(n)))
  {
    hide AddressedTo;
  }

  lemma AfterJudgement(n: Node, reply: Buffer)
    requires n.state == PassiveReceiveMaster && n.passive.tel == CLEARED
    ensures Turned(CreateMaster(CLEARED, n.passive.master.Reduced()), MasterComplete(Start(n), reply))
  {
    hide CreateMaster, CreateSlave, LogicalCrc, Unstuff, AddressedTo, ReplyBuffer, MasterAccepted, MasterRejected;
    var s := n.passive.master.Reduced();
    var q := n.(passive := n.passive.(tel := CreateMaster(CLEARED, s), master := Buffer(s, false)));
    AfterAcceptance(q, reply);
    AfterRejection(q);
  }

  lemma PayMaster(n: Node, i: Input, m: seq<byte>, s: seq<byte>)
    requires Tracked(n) && n.state == PassiveReceiveMaster && ValidMaster(m) && ValidSlave(s)
    ensures PaysAtMostOne(n, i.b, OnPassiveReceiveMaster(Start(n), i.b, i.reply), m, s)
  {
    hide LogicalCrc, IsMaster, SlaveOf, TypeOf, Exts, MasterComplete, CreateMaster, Unstuff, Counted, Implausible, ActiveIdle;
    var p := n.passive;
    PlainSnoc(p.master.bytes, i.b);
    NeedAtMostWhole(n, m, s);
    NoExts([]);
    if i.b != SYN && !Implausible(|p.master.bytes|, i.b) {
      PushCounted(p, i.b);
      var q := PushMaster(p, i.b);
      if |q.master.bytes| >= 6 + q.masterDbx {
        var e := MasterComplete(Start(n.(passive := q)), i.reply);
        AfterJudgement(n.(passive := q), i.reply);
        NeedAtMostWhole(e.node, m, s);
        if e.node.state == PassiveReceiveMasterAcknowledge && e.node.passive.tel.master == m {
          JudgedStays(CLEARED, q.master.Reduced());
          JudgedMasterIsLong(q, m);
        }
      }
    }
  }

  lemma PayMasterAcknowledge(n: Node, i: Input, m: seq<byte>, s: seq<byte>)
    requires Tracked(n) && n.state == PassiveReceiveMasterAcknowledge && ValidMaster(m) && ValidSlave(s)
    ensures PaysAtMostOne(n, i.b, OnPassiveReceiveMasterAcknowledge(Start(n), i.b), m, s)
  {
    hide LogicalCrc, IsMaster, SlaveOf, TypeOf, Exts, ValidMaster, ActiveIdle;
    NoExts([]);
  }

  /** A slave part judged to be s took all of s and its CRC. */
  lemma JudgedSlaveIsLong(p: Passive, s: seq<byte>)
    requires ValidSlave(s) && SlaveCounted(p) && p.slave.bytes != [] && |p.slave.bytes| >= 2 + p.slaveDbx
    requires CreateSlave(p.tel, p.slave.Reduced()).slave == s && p.tel.slave != s
    ensures Plain(p.slave.bytes) >= |s| + 1
  {
    hide LogicalCrc, Unstuff, Exts;
    UnstuffHead(p.slave.bytes);
  }

  lemma PushSlaveCounted(p: Passive, b: byte)
    requires SlaveCounted(p) && (p.slave.bytes == [] ==> b <= MAX_DATA_BYTES)
    ensures SlaveCounted(PushSlave(p, b)) && PushSlave(p, b).slave.bytes == p.slave.bytes + [b]
  {
    ExtsSnoc(p.slave.bytes, b);
    NoExts([]);
  }

  lemma PaySlave(n: Node, i: Input, m: seq<byte>, s: seq<byte>)
    requires Tracked(n) && n.state == PassiveReceiveSlave && ValidMaster(m) && ValidSlave(s)
    ensures PaysAtMostOne(n, i.b, OnPassiveReceiveSlave(Start(n), i.b), m, s)
  {
    hide LogicalCrc, Exts, ValidMaster, CreateSlave, Unstuff, Inv, SlaveCounted;
    var p := n.passive;
    PlainSnoc(p.slave.bytes, i.b);
    if p.slave.bytes == [] && i.b > MAX_DATA_BYTES {
      assert SlaveCounted(IDLE_PASSIVE) && m != [] by { NothingCounted(m); }
    } else {
      PushSlaveCounted(p, i.b);
      var q := PushSlave(p, i.b);
      JudgedStays(p.tel, q.slave.Reduced());
      if |q.slave.bytes| >= 2 + q.slaveDbx && CreateSlave(p.tel, q.slave.Reduced()).slave == s && p.tel.slave != s {
        JudgedSlaveIsLong(q, s);
      }
    }
  }

  lemma NothingCounted(m: seq<byte>)
    requires ValidMaster(m)
    ensures SlaveCounted(IDLE_PASSIVE) && m != []
  {
  }

  lemma PaySlaveAcknowledge(n: Node, i: Input, m: seq<byte>, s: seq<byte>)
    requires Tracked(n) && n.state == PassiveReceiveSlaveAcknowledge && ValidMaster(m) && ValidSlave(s)
    ensures PaysAtMostOne(n, i.b, OnPassiveReceiveSlaveAcknowledge(Start(n), i.b), m, s)
  {
    hide LogicalCrc, Exts, ValidMaster, Inv;
    NoExts([]);
  }

  lemma PayReactiveAcknowledge(n: Node, i: Input, m: seq<byte>, s: seq<byte>)
    requires Tracked(n) && ValidMaster(m) && ValidSlave(s)
    ensures n.state == ReactiveSendMasterPositiveAcknowledge ==>
              PaysAtMostOne(n, i.b, OnReactiveSendMasterPositiveAcknowledge(Start(n)), m, s)
    ensures n.state == ReactiveSendMasterNegativeAcknowledge ==>
              PaysAtMostOne(n, i.b, OnReactiveSendMasterNegativeAcknowledge(Start(n)), m, s)
  {
    hide LogicalCrc, IsMaster, SlaveOf, TypeOf, Exts, ValidMaster, ActiveIdle, HoldsMaster, HoldsSlave, ReplyBuffer;
    NoExts([]);
  }

  lemma PayReactive(n: Node, i: Input, m: seq<byte>, s: seq<byte>)
    requires Tracked(n) && ValidMaster(m) && ValidSlave(s)
    ensures n.state == ReactiveSendSlave ==> PaysAtMostOne(n, i.b, OnReactiveSendSlave(Start(n)), m, s)
    ensures n.state == ReactiveReceiveSlaveAcknowledge ==>
              PaysAtMostOne(n, i.b, OnReactiveReceiveSlaveAcknowledge(Start(n), i.b), m, s)
    ensures n.state == ReleaseBus ==> PaysAtMostOne(n, i.b, OnReleaseBus(Start(n)), m, s)
  {
    hide LogicalCrc, IsMaster, SlaveOf, TypeOf, Exts, ValidMaster, ActiveIdle, HoldsMaster, HoldsSlave, ReplyBuffer;
    NoExts([]);
  }

  lemma PayStep(n: Node, i: Input, m: seq<byte>, s: seq<byte>)
    requires Tracked(n) && ValidMaster(m) && ValidSlave(s)
    ensures Tracked(Step(n, i).node) && PaysAtMostOne(n, i.b, Step(n, i), m, s)
  {
    hide Inv, ValidMaster, ValidSlave, PaysAtMostOne, OnPassiveReceiveMaster, OnPassiveReceiveMasterAcknowledge,
         OnPassiveReceiveSlave, OnPassiveReceiveSlaveAcknowledge, OnReactiveSendMasterPositiveAcknowledge,
         OnReactiveSendMasterNegativeAcknowledge, OnReactiveSendSlave, OnReactiveReceiveSlaveAcknowledge, OnReleaseBus;
    GoodByte(n, i);
    match n.state {
      case PassiveReceiveMaster => PayMaster(n, i, m, s);
      case PassiveReceiveMasterAcknowledge => PayMasterAcknowledge(n, i, m, s);
      case PassiveReceiveSlave => PaySlave(n, i, m, s);
      case PassiveReceiveSlaveAcknowledge => PaySlaveAcknowledge(n, i, m, s);
      case _ =>
        PayReactiveAcknowledge(n, i, m, s);
        PayReactive(n, i, m, s);
    }
    assert Observing(Step(n, i).node.state)
      && (Step(n, i).node.state == PassiveReceiveSlave ==> SlaveCounted(Step(n, i).node.passive)) by {
      PaysUnfold(n, i.b, Step(n, i), m, s);
    }
  }

  lemma PaysUnfold(n: Node, b: byte, e: Effect, m: seq<byte>, s: seq<byte>)
    requires PaysAtMostOne(n, b, e, m, s)
    ensures Observing(e.node.state) && (e.node.state == PassiveReceiveSlave ==> SlaveCounted(e.node.passive))
    ensures Need(n, m, s) <= PlainByte(b) + Need(e.node, m, s)
    ensures Target(m, s) in e.outs ==> Need(n, m, s) <= PlainByte(b)
  {
  }

  /** Whatever is read: the telegram of m and s is not delivered before its need is paid. */
  lemma {:induction false} DeliveryIsPaid(n: Node, ins: seq<Input>, m: seq<byte>, s: seq<byte>)
    requires Tracked(n) && ValidMaster(m) && ValidSlave(s) && Target(m, s) in Run(n, ins).outs
    ensures Need(n, m, s) <= Plains(ins)
    decreases |ins|
  {
    hide Step, Tracked, ValidMaster, ValidSlave, Need, PaysAtMostOne, Target;
    PayStep(n, ins[0], m, s);
    var e := Step(n, ins[0]);
    PaysUnfold(n, ins[0].b, e, m, s);
    assert Run(n, ins).outs == e.outs + Run(e.node, ins[1..]).outs;
    if Target(m, s) !in e.outs {
      DeliveryIsPaid(e.node, ins[1..], m, s);
    }
  }
}
