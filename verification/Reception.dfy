/** How a stuffed part is received byte by byte: the escape-counting length test fires at its last byte. */
module Reception {
  import opened Bytes
  import opened Stuffing
  import opened Crc
  import opened Telegram
  import opened Handler
  import opened HandlerInvariant
  import opened HandlerSteps

  /** The wire form of a part, CRC included. */
  function WirePart(body: seq<byte>): seq<byte> {
    Stuff(Part(body))
  }

  // ---------- The wire form of a master part ----------

  lemma {:induction false} PlainPrefix(s: seq<byte>, k: nat)
    requires k <= |s| && forall i :: 0 <= i < k ==> !NeedsEscape(s[i])
    ensures |Stuff(s)| >= k && Stuff(s)[..k] == s[..k]
  {
    if k > 0 {
      PlainPrefix(s[1..], k - 1);
      assert Stuff(s) == [s[0]] + Stuff(s[1..]);
      assert s[..k] == [s[0]] + s[1..][..k - 1];
      assert Stuff(s)[..k] == [s[0]] + Stuff(s[1..])[..k - 1];
    }
  }

  lemma MasterHeader(m: seq<byte>)
    requires ValidMaster(m)
    ensures |WirePart(m)| >= 6 && WirePart(m)[..5] == m[..5] && EXT !in WirePart(m)[..5] && SYN !in WirePart(m)
    ensures Unstuff(WirePart(m)) == Part(m)
  {
    hide LogicalCrc, IsMaster, Unstuff;
    MasterNeedsNoEscape(m[0]);
    PlainPrefix(Part(m), 5);
    StuffLength(Part(m));
    RoundTripExact(Part(m), []);
    assert Part(m)[..5] == m[..5];
  }

  /** Escape count after k wire bytes of a master part. */
  function MasterDbx(m: seq<byte>, k: nat): nat
    requires ValidMaster(m) && k <= |WirePart(m)|
  {
    if k < 5 then 0 else m[4] + Exts(WirePart(m)[..k])
  }

  /** A listening node after k wire bytes of the master part. */
  function MasterMid(n: Node, m: seq<byte>, k: nat): Node
    requires ValidMaster(m) && k <= |WirePart(m)|
  {
    n.(passive := n.passive.(master := Buffer(WirePart(m)[..k], k > 0), masterDbx := MasterDbx(m, k)))
  }

  predicate Waiting(n: Node) {
    n.state == PassiveReceiveMaster && n.passive.tel == CLEARED && n.passive.master == EMPTY &&
    n.passive.masterDbx == 0 && SlaveIdle(n.passive)
  }

  lemma MasterMidStart(n: Node, m: seq<byte>)
    requires ValidMaster(m) && Waiting(n)
    ensures 0 <= |WirePart(m)| && MasterMid(n, m, 0) == n
  {
    hide WirePart, ValidMaster;
    assert WirePart(m)[..0] == [];
  }

  lemma HeaderIsPlausible(m: seq<byte>, k: nat)
    requires ValidMaster(m) && k < |WirePart(m)|
    ensures !Implausible(k, WirePart(m)[k]) && WirePart(m)[k] != SYN
  {
    hide LogicalCrc, IsMaster, Unstuff, Stuff, Part;
    MasterHeader(m);
    var w := WirePart(m);
    assert w[k] in w;
    if k < 5 {
      assert w[..5][k] == w[k] && m[..5][k] == m[k];
    }
  }

  /** One more byte: the count stays right, and the test fires exactly at the end. */
  lemma PushMid(n: Node, m: seq<byte>, k: nat)
    requires ValidMaster(m) && k < |WirePart(m)|
    ensures var p := PushMaster(MasterMid(n, m, k).passive, WirePart(m)[k]);
            && p == MasterMid(n, m, k + 1).passive
            && (|p.master.bytes| >= 6 + p.masterDbx <==> k + 1 == |WirePart(m)|)
  {
    hide LogicalCrc, IsMaster, Unstuff, Stuff, Exts;
    MasterHeader(m);
    var w := WirePart(m);
    assert w[..k + 1] == w[..k] + [w[k]];
    ExtsSnoc(w[..k], w[k]);
    FrameEnd(Part(m), k + 1);
    if k < 5 {
      assert w[..5][k] == w[k] && w[..5][k] == m[..5][k] == m[k];
      assert w[..k] == w[..5][..k];
      NoExts(w[..k]);
    }
  }

  lemma StepMasterMid(n: Node, m: seq<byte>, k: nat, i: Input)
    requires ValidMaster(m) && Waiting(n) && k + 1 < |WirePart(m)| && i.b == WirePart(m)[k]
    ensures Step(MasterMid(n, m, k), i) == Start(MasterMid(n, m, k + 1))
  {
    hide WirePart, MasterDbx, PushMaster, ValidMaster, Implausible, MasterComplete;
    HeaderIsPlausible(m, k);
    PushMid(n, m, k);
    assert |MasterMid(n, m, k).passive.master.bytes| == k;
  }

  /** The node when the last byte has been judged and accepted. */
  function MasterDone(n: Node, m: seq<byte>): Node
    requires ValidMaster(m)
  {
    n.(passive := n.passive.(
      tel := CreateMaster(CLEARED, Part(m)), master := Buffer(Part(m), false),
      masterDbx := MasterDbx(m, |WirePart(m)|)))
  }

  lemma StepMasterLast(n: Node, m: seq<byte>, i: Input)
    requires ValidMaster(m) && Waiting(n)
    requires |WirePart(m)| > 0 && i.b == WirePart(m)[|WirePart(m)| - 1]
    ensures Step(MasterMid(n, m, |WirePart(m)| - 1), i) == MasterAccepted(Start(MasterDone(n, m)), i.reply)
    ensures DoneTel(CreateMaster(CLEARED, Part(m)), m)
  {
    hide WirePart, MasterDbx, PushMaster, ValidMaster, Implausible, MasterAccepted, CreateMaster, Part, Unstuff, MasterRejected,
         LogicalCrc, KindOf;
    var w := WirePart(m);
    var k := |w| - 1;
    HeaderIsPlausible(m, k);
    PushMid(n, m, k);
    MasterHeader(m);
    CreateMasterExact(CLEARED, Part(m));
    assert |MasterMid(n, m, k).passive.master.bytes| == k;
    assert w[..k + 1] == w;
  }

  /** The telegram after a master part was accepted and nothing else happened. */
  predicate DoneTel(t: Telegram, m: seq<byte>) {
    HoldsMaster(t) && t.master == m && t.slave == [] && t.slaveState == SeqEmpty
  }

  // ---------- The wire form of a slave part ----------

  lemma SlaveHeader(s: seq<byte>)
    requires ValidSlave(s)
    ensures |WirePart(s)| >= 2 && WirePart(s)[0] == s[0] && SYN !in WirePart(s)
    ensures Unstuff(WirePart(s)) == Part(s)
  {
    hide LogicalCrc, Unstuff;
    PlainPrefix(Part(s), 1);
    StuffLength(Part(s));
    RoundTripExact(Part(s), []);
    assert Part(s)[..1] == s[..1];
    assert WirePart(s)[..1][0] == s[..1][0];
  }

  function SlaveDbx(s: seq<byte>, k: nat): nat
    requires ValidSlave(s) && k <= |WirePart(s)|
  {
    if k == 0 then 0 else s[0] + Exts(WirePart(s)[..k])
  }

  function SlaveMid(n: Node, s: seq<byte>, k: nat): Node
    requires ValidSlave(s) && k <= |WirePart(s)|
  {
    n.(passive := n.passive.(slave := Buffer(WirePart(s)[..k], k > 0), slaveDbx := SlaveDbx(s, k)))
  }

  function ActiveSlaveMid(n: Node, s: seq<byte>, k: nat): Node
    requires ValidSlave(s) && k <= |WirePart(s)|
  {
    n.(active := n.active.(slave := Buffer(WirePart(s)[..k], k > 0), slaveDbx := SlaveDbx(s, k)))
  }

  /** The common part of passive and active reception of a slave part. */
  lemma PushSlaveBytes(s: seq<byte>, k: nat)
    requires ValidSlave(s) && k < |WirePart(s)|
    ensures var w := WirePart(s);
            && w[..k] + [w[k]] == w[..k + 1]
            && SlaveDbx(s, k + 1) == (if k == 0 then w[k] else SlaveDbx(s, k)) + (if w[k] == EXT then 1 else 0)
            && (k == 0 ==> w[k] <= MAX_DATA_BYTES)
            && (k + 1 >= 2 + SlaveDbx(s, k + 1) <==> k + 1 == |w|)
  {
    hide LogicalCrc, Unstuff, Stuff, Exts;
    SlaveHeader(s);
    var w := WirePart(s);
    ExtsSnoc(w[..k], w[k]);
    FrameEnd(Part(s), k + 1);
    if k == 0 {
      NoExts(w[..0]);
    }
  }

  predicate AwaitsSlave(n: Node) {
    n.state == PassiveReceiveSlave && n.passive.slave == EMPTY && n.passive.slaveDbx == 0
  }

  lemma StepSlaveMid(n: Node, s: seq<byte>, k: nat, i: Input)
    requires ValidSlave(s) && AwaitsSlave(n) && k + 1 < |WirePart(s)| && i.b == WirePart(s)[k]
    ensures Step(SlaveMid(n, s, k), i) == Start(SlaveMid(n, s, k + 1))
  {
    hide WirePart, SlaveDbx, ValidSlave;
    PushSlaveBytes(s, k);
    assert |WirePart(s)[..k]| == k;
  }

  function SlaveDone(n: Node, s: seq<byte>): Node
    requires ValidSlave(s)
  {
    n.(state := PassiveReceiveSlaveAcknowledge,
       passive := n.passive.(tel := CreateSlave(n.passive.tel, Part(s)), slave := Buffer(Part(s), false),
                             slaveDbx := SlaveDbx(s, |WirePart(s)|)))
  }

  lemma PushSlaveLast(n: Node, s: seq<byte>)
    requires ValidSlave(s) && AwaitsSlave(n)
    ensures |WirePart(s)| >= 2
    ensures var w := WirePart(s);
            var p := PushSlave(SlaveMid(n, s, |w| - 1).passive, w[|w| - 1]);
            && p == n.passive.(slave := Buffer(w, true), slaveDbx := SlaveDbx(s, |w|)) && |w| >= 2 + p.slaveDbx
            && SlaveMid(n, s, |w| - 1).passive.slave.bytes != []
  {
    hide WirePart, SlaveDbx, ValidSlave;
    SlaveHeader(s);
    var w := WirePart(s);
    PushSlaveBytes(s, |w| - 1);
    assert w[..|w|] == w;
    assert |w[..|w| - 1]| == |w| - 1;
  }

  lemma StepSlaveLast(n: Node, s: seq<byte>, i: Input)
    requires ValidSlave(s) && AwaitsSlave(n)
    requires |WirePart(s)| > 0 && i.b == WirePart(s)[|WirePart(s)| - 1]
    ensures Step(SlaveMid(n, s, |WirePart(s)| - 1), i) == Start(SlaveDone(n, s))
    ensures SlaveTel(n.passive.tel, CreateSlave(n.passive.tel, Part(s)), s)
  {
    hide WirePart, SlaveDbx, ValidSlave, CreateSlave, Part, Unstuff, PushSlave;
    PushSlaveLast(n, s);
    SlaveHeader(s);
    SlaveAccepted(n.passive.tel, s);
  }

  /** Accepting a slave part changes the slave fields only. */
  predicate SlaveTel(before: Telegram, after: Telegram, s: seq<byte>) {
    && after.slaveState == SeqOk && after.slave == s && after.slaveCrc == LogicalCrc(s)
    && after.(slave := before.slave, slaveCrc := before.slaveCrc, slaveState := before.slaveState) == before
  }

  lemma SlaveAccepted(t: Telegram, s: seq<byte>)
    requires ValidSlave(s)
    ensures SlaveTel(t, CreateSlave(t, Part(s)), s)
  {
    hide LogicalCrc;
    assert |Part(s)| >= 2;
    CreateSlaveExact(t, Part(s));
  }

  lemma StepActiveSlaveMid(n: Node, s: seq<byte>, k: nat, i: Input)
    requires ValidSlave(s) && n.state == ActiveReceiveSlave && ActiveSlaveFresh(n.active)
    requires k + 1 < |WirePart(s)| && i.b == WirePart(s)[k]
    ensures Step(ActiveSlaveMid(n, s, k), i) == Start(ActiveSlaveMid(n, s, k + 1))
  {
    hide WirePart, SlaveDbx, ValidSlave;
    PushSlaveBytes(s, k);
    assert |WirePart(s)[..k]| == k;
  }

  function ActiveSlaveDone(n: Node, s: seq<byte>): Node
    requires ValidSlave(s)
  {
    n.(state := ActiveSendSlavePositiveAcknowledge,
       active := n.active.(tel := CreateSlave(n.active.tel, Part(s)), slave := Buffer(Part(s), false),
                           slaveDbx := SlaveDbx(s, |WirePart(s)|)))
  }

  lemma PushActiveSlaveLast(n: Node, s: seq<byte>)
    requires ValidSlave(s) && ActiveSlaveFresh(n.active)
    ensures |WirePart(s)| >= 2
    ensures var w := WirePart(s);
            var z := PushActiveSlave(ActiveSlaveMid(n, s, |w| - 1).active, w[|w| - 1]);
            && z == n.active.(slave := Buffer(w, true), slaveDbx := SlaveDbx(s, |w|)) && |w| >= 2 + z.slaveDbx
            && ActiveSlaveMid(n, s, |w| - 1).active.slave.bytes != []
  {
    hide WirePart, SlaveDbx, ValidSlave;
    SlaveHeader(s);
    var w := WirePart(s);
    PushSlaveBytes(s, |w| - 1);
    assert w[..|w|] == w;
    assert |w[..|w| - 1]| == |w| - 1;
  }

  lemma StepActiveSlaveLast(n: Node, s: seq<byte>, i: Input)
    requires ValidSlave(s) && n.state == ActiveReceiveSlave && ActiveSlaveFresh(n.active)
    requires |WirePart(s)| > 0 && i.b == WirePart(s)[|WirePart(s)| - 1]
    ensures Step(ActiveSlaveMid(n, s, |WirePart(s)| - 1), i) == Start(ActiveSlaveDone(n, s)).Write(ACK)
    ensures SlaveTel(n.active.tel, CreateSlave(n.active.tel, Part(s)), s)
  {
    hide WirePart, SlaveDbx, ValidSlave, CreateSlave, Part, Unstuff, PushActiveSlave;
    PushActiveSlaveLast(n, s);
    SlaveHeader(s);
    SlaveAccepted(n.active.tel, s);
  }
}
