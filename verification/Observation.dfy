/**
 * The handler as observer of what is not a proper exchange: headers that begin no part, parts cut off by a
 * SYN, attempts refused twice, spoiled slave parts.
 */
module Observation {
  import opened Bytes
  import opened Stuffing
  import opened Crc
  import opened Telegram
  import opened Handler
  import opened HandlerInvariant
  import opened HandlerSteps
  import opened Reception
  import opened Feed
  import opened Effort
  import opened RawReception
  import opened Streaming
  import opened Transmission
  import opened Addressee

  // ---------- The header ----------

  /** Bytes with which some valid master part begins. */
  ghost predicate Begins(q: seq<byte>) {
    exists m :: ValidMaster(m) && q <= m
  }

  /** The shortest part with the given beginning. */
  function Filled(q: seq<byte>): seq<byte>
    requires |q| <= 5
  {
    var h := q + [0x00, BROADCAST, 0x00, 0x00, 0x00][|q|..];
    h + seq(h[4], _ => 0)
  }

  lemma BeginsExactly(q: seq<byte>)
    requires |q| <= 5
    ensures Begins(q) <==> forall k :: 0 <= k < |q| ==> !Implausible(k, q[k])
  {
    if forall k :: 0 <= k < |q| ==> !Implausible(k, q[k]) {
      var m := Filled(q);
      var h := [0x00, BROADCAST, 0x00, 0x00, 0x00];
      forall k | 0 <= k < 5
        ensures !Implausible(k, m[k])
      {
        assert m[k] == if k < |q| then q[k] else h[|q|..][k - |q|];
        assert !Implausible(k, h[k]) by { DefaultHeader(k); }
      }
      HeadedIsValid(m);
      assert q <= m;
    }
    if Begins(q) {
      var m :| ValidMaster(m) && q <= m;
      ValidIsHeaded(m);
      assert forall k :: 0 <= k < |q| ==> q[k] == m[k];
    }
  }

  lemma DefaultHeader(k: nat)
    requires k < 5
    ensures !Implausible(k, [0x00, BROADCAST, 0x00, 0x00, 0x00][k])
  {
  }

  lemma HeadedIsValid(m: seq<byte>)
    requires Headed(m) && |m| - 5 == m[4]
    ensures ValidMaster(m)
  {
    assert !Implausible(0, m[0]) && !Implausible(1, m[1]) && !Implausible(2, m[2]);
    assert !Implausible(3, m[3]) && !Implausible(4, m[4]);
  }

  /** A waiting node once the header bytes q have been buffered. */
  function Heading(n: Node, q: seq<byte>): Node {
    n.(passive := n.passive.(master := Buffer(q, q != []), masterDbx := if |q| == 5 then q[4] else 0))
  }

  /** A header byte is kept exactly if some valid part goes on like this; otherwise everything is dropped. */
  lemma HeaderExactly(n: Node, q: seq<byte>, i: Input)
    requires Waiting(n) && |q| < 5 && Begins(q) && i.b != SYN
    ensures Step(Heading(n, q), i) ==
            if Begins(q + [i.b]) then Start(Heading(n, q + [i.b])) else Start(n.(passive := IDLE_PASSIVE))
  {
    hide Implausible, Begins, IsMaster, MasterComplete;
    BeginsExactly(q);
    BeginsExactly(q + [i.b]);
    var p := q + [i.b];
    assert forall k :: 0 <= k < |q| ==> p[k] == q[k];
    NoEscapeInHeader(|q|, i.b);
    assert p[|q|] == i.b;
    if !Implausible(|q|, i.b) {
      forall k | 0 <= k < |p|
        ensures !Implausible(k, p[k])
      {
        if k < |q| {
          assert !Implausible(k, q[k]);
        }
      }
    }
  }

  lemma NoEscapeInHeader(k: nat, b: byte)
    requires k < 5
    ensures !Implausible(k, b) ==> b != EXT
  {
  }

  /** A SYN inside a part is reported, and nothing of the part is kept. */
  lemma SynInsidePart(n: Node, w: seq<byte>, k: nat, i: Input)
    requires Waiting(n) && n.active.master == EMPTY && n.active.slave == EMPTY && |w| >= 5 && 0 < k <= |w| && i.b == SYN
    ensures Step(RawMid(n, w, k), i) ==
            Effect(n.(passive := IDLE_PASSIVE), None,
                   [Failed(CheckPassiveBuffers, SeqEmpty, w[..k], [])] + Wish(n))
  {
    hide Exts, MasterComplete;
    assert w[..k] != [];
  }

  // ---------- The acknowledge of a foreign part ----------

  /** What follows a foreign valid part, by the next byte. */
  lemma ForeignAnswer(n: Node, m: seq<byte>, i: Input)
    requires Waiting(n) && ValidMaster(m) && Foreign(n, m) && KindOf(m) != Broadcast
    ensures Step(MasterDone(n, m).(state := PassiveReceiveMasterAcknowledge), i) ==
            if i.b == ACK && KindOf(m) == MasterMaster then
              Effect(n.(passive := IDLE_PASSIVE), None, [Delivered(PassiveMessage, MasterMaster, m, [])])
            else if i.b == ACK then Start(MasterDone(n, m).(state := PassiveReceiveSlave))
            else if i.b != SYN && !n.passive.masterRepeated then Start(n.(passive := n.passive.(masterRepeated := true)))
            else Effect(n.(passive := IDLE_PASSIVE), None, [Failed(ErrorPassiveMasterAck, SeqOk, Part(m), [])])
  {
    hide WirePart, ValidMaster, LogicalCrc, KindOf, Foreign, CreateMaster, MasterDbx;
    ForeignAccepted(n, m, EMPTY);
  }

  /** Two foreign attempts neither of which is acknowledged: exactly one error, after the second. */
  lemma RefusedTwice(n: Node, m1: seq<byte>, m2: seq<byte>, first: seq<Input>, x: Input, second: seq<Input>, y: Input)
    requires Waiting(n) && !n.passive.masterRepeated && ValidMaster(m1) && ValidMaster(m2)
    requires Foreign(n, m1) && Foreign(n, m2) && KindOf(m1) != Broadcast && KindOf(m2) != Broadcast
    requires Carries(first, WirePart(m1)) && Carries(second, WirePart(m2)) && x.b != ACK && x.b != SYN && y.b != ACK
    ensures Run(n, (first + [x]) + (second + [y])) ==
            Outcome(n.(passive := IDLE_PASSIVE), [], [Failed(ErrorPassiveMasterAck, SeqOk, Part(m2), [])])
  {
    hide Run, Step, WirePart, ValidMaster, KindOf, Foreign, MasterDone, Part;
    RunMasterPart(n, m1, first);
    ForeignAnswer(n, m1, x);
    RunConcat(n, first, [x]);
    RunOne(MasterDone(n, m1).(state := PassiveReceiveMasterAcknowledge), x);
    var q := n.(passive := n.passive.(masterRepeated := true));
    RunConcat(n, first + [x], second + [y]);
    SameForeign(n, q, m2);
    RunMasterPart(q, m2, second);
    ForeignAnswer(q, m2, y);
    RunConcat(q, second, [y]);
    RunOne(MasterDone(q, m2).(state := PassiveReceiveMasterAcknowledge), y);
  }

  lemma SameForeign(n: Node, q: Node, m: seq<byte>)
    requires q.source == n.source && q.target == n.target && Foreign(n, m)
    ensures Foreign(q, m)
  {
  }

  /** A bad foreign master-master part is delivered all the same once it is acknowledged. */
  lemma BadPartDelivered(n: Node, w: seq<byte>, reply: Buffer, i: Input)
    requires Waiting(n) && Completed(w) && NoPart(Unstuff(w)) && w[1] != n.source && w[1] != n.target
    requires TypeOf(w[1]) == MasterMaster && i.b == ACK
    ensures |w| >= 6
    ensures var u := Unstuff(w);
            var e := MasterComplete(Start(RawMid(n, w, |w|)), reply);
            |u| >= 6 &&
            Step(e.node, i) ==
            Effect(n.(passive := IDLE_PASSIVE), None,
                   [Delivered(PassiveMessage, MasterMaster, if MasterFlaw(w) == ErrCrc then u[..|u| - 1] else [], [])])
  {
    hide LogicalCrc, Unstuff, IsMaster, SlaveOf, Exts, MasterAccepted, Completed, NoPart, TypeOf, ValidMaster;
    BadPartRejected(w);
    CompletedIsLong(w);
    var u := Unstuff(w);
    assert u[..5][1] == w[..5][1] && u[..5][4] == w[..5][4];
    assert w[..|w|] == w;
  }

  // ---------- The slave part of a foreign exchange ----------

  /** A listening node that has read the bytes v of a slave part. */
  function Watched(n: Node, v: seq<byte>): Node {
    n.(passive := n.passive.(slave := Buffer(v, v != []), slaveDbx := if v == [] then 0 else v[0] + Exts(v)))
  }

  function WatchedSpoiled(n: Node, v: seq<byte>): Node
    requires v != []
  {
    n.(state := PassiveReceiveSlaveAcknowledge,
       passive := n.passive.(tel := CreateSlave(n.passive.tel, Unstuff(v)), slave := Buffer(Unstuff(v), false),
                             slaveDbx := v[0] + Exts(v)))
  }

  lemma WatchedStep(n: Node, v: seq<byte>, i: Input)
    requires n.state == PassiveReceiveSlave
    requires (v == [] ==> i.b <= MAX_DATA_BYTES) && (v != [] ==> v[0] <= MAX_DATA_BYTES)
    requires var u := v + [i.b]; Plain(u) < 2 + u[0]
    ensures Step(Watched(n, v), i) == Start(Watched(n, v + [i.b]))
  {
    hide Exts;
    ExtsSnoc(v, i.b);
    NoExts([]);
  }

  lemma SpoiledCount(v: seq<byte>)
    requires Spoiled(v)
    ensures v != []
    ensures v[0] <= MAX_DATA_BYTES ==> Plain(v) == 2 + v[0] && v[|v| - 1] != EXT && |v| >= 2
  {
    hide Unstuff, ValidSlave, LogicalCrc, Part, Exts;
    ExtsConcat([], v);
  }

  lemma WatchedPush(n: Node, v: seq<byte>, b: byte)
    ensures PushSlave(Watched(n, v).passive, b) == Watched(n, v + [b]).passive
  {
    hide Exts;
    ExtsSnoc(v, b);
    NoExts([]);
  }

  /** The length test fired on a slave part that is then rejected. */
  lemma RejectedSlave(x: Node, i: Input, q: Passive, t: Telegram)
    requires x.state == PassiveReceiveSlave && q == PushSlave(x.passive, i.b)
    requires !(x.passive.slave.bytes == [] && i.b > MAX_DATA_BYTES) && |q.slave.bytes| >= 2 + q.slaveDbx
    requires t == CreateSlave(q.tel, q.slave.Reduced()) && t.slaveState != SeqOk
    ensures Step(x, i) ==
            Effect(x.(state := PassiveReceiveSlaveAcknowledge,
                      passive := q.(tel := t, slave := Buffer(q.slave.Reduced(), false))), None,
                   [Failed(ErrorPassiveSlave, t.slaveState, q.master.bytes, q.slave.Reduced())])
  {
    hide CreateSlave, Unstuff, PushSlave;
  }

  lemma WatchedLast(n: Node, v: seq<byte>, i: Input)
    requires n.state == PassiveReceiveSlave && Spoiled(v) && v[0] <= MAX_DATA_BYTES && i.b == v[|v| - 1]
    ensures Step(Watched(n, v[..|v| - 1]), i) ==
            Effect(WatchedSpoiled(n, v), None,
                   [Failed(ErrorPassiveSlave, Flaw(v), n.passive.master.bytes, Unstuff(v))])
  {
    hide Exts, CreateSlave, Unstuff, Flaw, Spoiled, PushSlave, Step;
    SpoiledCount(v);
    SpoiledIsRejected(n.passive.tel, v);
    FlawIsNoOk(v);
    var p := v[..|v| - 1];
    assert v == p + [i.b];
    WatchedPush(n, p, i.b);
    var q := PushSlave(Watched(n, p).passive, i.b);
    RejectedSlave(Watched(n, p), i, q, CreateSlave(n.passive.tel, Unstuff(v)));
  }

  lemma FlawIsNoOk(v: seq<byte>)
    requires v != []
    ensures Flaw(v) != SeqOk
  {
  }

  /** A spoiled slave part is reported once, with its last byte, and the acknowledge awaited nevertheless. */
  lemma {:induction false} SpoiledIsReported(n: Node, v: seq<byte>, k: nat, ins: seq<Input>)
    requires n.state == PassiveReceiveSlave && Spoiled(v) && v[0] <= MAX_DATA_BYTES && k < |v| && Carries(ins, v[k..])
    ensures Run(Watched(n, v[..k]), ins) ==
            Outcome(WatchedSpoiled(n, v), [], [Failed(ErrorPassiveSlave, Flaw(v), n.passive.master.bytes, Unstuff(v))])
    decreases |ins|
  {
    hide Step, Run, Watched, WatchedSpoiled, Flaw, Unstuff, Carries;
    CarriesNext(ins, v, k);
    CarriesLength(ins, v[k..]);
    if k + 1 < |v| {
      PlainBefore(v, k + 1);
      WatchedStep(n, v[..k], ins[0]);
      RunQuietly(Watched(n, v[..k]), Watched(n, v[..k + 1]), ins);
      SpoiledIsReported(n, v, k + 1, ins[1..]);
    } else {
      WatchedLast(n, v, ins[0]);
      assert ins == [ins[0]];
      RunOne(Watched(n, v[..k]), ins[0]);
    }
  }

  /** What follows an observed slave part, good or bad, by the next byte. */
  lemma SlaveAnswer(n: Node, i: Input)
    requires n.state == PassiveReceiveSlaveAcknowledge
    ensures Step(n, i) ==
            if i.b == ACK then
              Effect(n.(state := PassiveReceiveMaster, passive := IDLE_PASSIVE), None,
                     [Delivered(PassiveMessage, MasterSlave, n.passive.tel.master, n.passive.tel.slave)])
            else if i.b == NAK && !n.passive.slaveRepeated then
              Start(Watched(n.(state := PassiveReceiveSlave, passive := n.passive.(slaveRepeated := true)), []))
            else
              Effect(n.(state := PassiveReceiveMaster, passive := IDLE_PASSIVE), None,
                     [Failed(ErrorPassiveSlaveAck, n.passive.tel.slaveState, n.passive.master.bytes, n.passive.slave.bytes)])
  {
  }
}
