/**
 * The handler as addressee and observer of complete master parts, good or bad: what it writes and reports
 * when the last byte of a part is read, and afterwards.
 */
module Addressee {
  import opened Bytes
  import opened Stuffing
  import opened Crc
  import opened Telegram
  import opened Handler
  import opened HandlerInvariant
  import opened HandlerSteps
  import opened Reception
  import opened Feed
  import opened Effort
  import opened RawReception
  import Request

  /** The node answers to a master address and to the slave address that belongs to it. */
  predicate HasAddresses(n: Node) {
    IsMaster(n.source) && n.target == SlaveOf(n.source)
  }

  /** The bytes stand for no valid part with its CRC. */
  ghost predicate NoPart(u: seq<byte>) {
    forall m :: ValidMaster(m) ==> u != Part(m)
  }

  /** What is wrong with a complete part that stands for none. */
  function MasterFlaw(w: seq<byte>): SequenceState
    requires |w| >= 5
  {
    if |Unstuff(w)| - 6 == w[4] then ErrCrc else ErrTooLong
  }

  /** The node that has accepted the part m, received as the bytes w. */
  function Held(n: Node, w: seq<byte>, m: seq<byte>, state: HandlerState): Node
    requires |w| >= 5
  {
    n.(state := state,
       passive := n.passive.(tel := CreateMaster(CLEARED, Part(m)), master := Buffer(Part(m), false),
                             masterDbx := w[4] + Exts(w)))
  }

  lemma OwnAddressesDiffer(n: Node)
    requires HasAddresses(n)
    ensures n.source != n.target && n.source != BROADCAST && n.target != BROADCAST
    ensures TypeOf(n.source) == MasterMaster && TypeOf(n.target) == MasterSlave
  {
    SlaveOfMaster(n.source);
    MasterIsNotBroadcast(n.source);
  }

  // ---------- The judgement of a complete part ----------

  /** What a complete valid part does, by its addressee; for our slave the answer decides. */
  lemma GoodPartJudged(n: Node, w: seq<byte>, m: seq<byte>, reply: Buffer)
    requires Waiting(n) && HasAddresses(n) && Completed(w) && ValidMaster(m) && Unstuff(w) == Part(m)
    requires m[1] != n.target
    ensures |w| >= 6 && DoneTel(CreateMaster(CLEARED, Part(m)), m)
    ensures MasterComplete(Start(RawMid(n, w, |w|)), reply) ==
            if KindOf(m) == Broadcast then
              Effect(n.(passive := IDLE_PASSIVE), None, [Delivered(PassiveMessage, Broadcast, m, [])])
            else if m[1] == n.source then
              Effect(Held(n, w, m, ReactiveSendMasterPositiveAcknowledge), Some(ACK), [])
            else Start(Held(n, w, m, PassiveReceiveMasterAcknowledge))
  {
    hide LogicalCrc, Unstuff, IsMaster, SlaveOf, Exts, TypeOf, CreateMaster, CreateSlave, Completed, ValidMaster, KindOf,
         Respond;
    CreateMasterExact(CLEARED, Part(m));
    OwnAddressesDiffer(n);
    PartBytes(m);
    KindIsTyped(m);
    CompletedIsLong(w);
    assert w[..|w|] == w;
  }

  /** A valid request to our slave that the callback does not answer properly: the bus is released with one error. */
  lemma UnansweredRequest(n: Node, w: seq<byte>, m: seq<byte>, reply: Buffer)
    requires Waiting(n) && HasAddresses(n) && Completed(w) && ValidMaster(m) && Unstuff(w) == Part(m)
    requires m[1] == n.target && NoReply(reply.Reduced())
    ensures |w| >= 6
    ensures MasterComplete(Start(RawMid(n, w, |w|)), reply) ==
            Effect(n.(state := ReleaseBus, passive := IDLE_PASSIVE), Some(SYN),
                   [Failed(ErrorReactiveSlave, ReplyFlaw(reply.Reduced()), Part(m), reply.Reduced())])
  {
    hide LogicalCrc, Unstuff, IsMaster, SlaveOf, Exts, TypeOf, CreateMaster, CreateSlave, Completed, ValidMaster, KindOf,
         ReplyFlaw, Buffer.Reduced;
    CreateMasterExact(CLEARED, Part(m));
    OwnAddressesDiffer(n);
    PartBytes(m);
    KindIsTyped(m);
    CompletedIsLong(w);
    assert w[..|w|] == w;
    ReducedIs(Buffer(w, true));
    NoReplyIsRefused(CreateMaster(CLEARED, Part(m)), reply.Reduced());
  }

  lemma ReducedIs(b: Buffer)
    ensures b.extended ==> b.Reduced() == Unstuff(b.bytes)
  {
  }

  lemma KindIsTyped(m: seq<byte>)
    requires ValidMaster(m)
    ensures KindOf(m) == TypeOf(m[1]) && (KindOf(m) == Broadcast <==> m[1] == BROADCAST)
  {
  }

  /** The answer of the callback is no slave part, with or without its CRC; zero data bytes need the CRC. */
  ghost predicate NoReply(s: seq<byte>) {
    forall r :: ValidSlave(r) ==> s != Part(r) && (s != r || s == [0])
  }

  /** What is wrong with such an answer. */
  function ReplyFlaw(s: seq<byte>): SequenceState {
    if |s| < 2 then ErrTooShort
    else if s[0] > MAX_DATA_BYTES then ErrDataByte
    else if |s| - 1 < s[0] then ErrTooShort
    else if |s| - 2 == s[0] then ErrCrc
    else ErrTooLong
  }

  lemma ValidIsReply(s: seq<byte>)
    requires ValidSlave(s) && s != [0]
    ensures !NoReply(s)
  {
    assert ValidSlave(s) && s == s;
  }

  lemma NoReplyIsRefused(t: Telegram, s: seq<byte>)
    requires NoReply(s)
    ensures CreateSlave(t, s).slaveState == ReplyFlaw(s) && ReplyFlaw(s) != SeqOk
  {
    hide LogicalCrc;
    if |s| >= 2 && s[0] <= MAX_DATA_BYTES {
      if |s| - 1 == s[0] {
        ValidIsReply(s);
      }
      if |s| - 2 == s[0] {
        var r := s[..|s| - 1];
        assert ValidSlave(r) && s == r + [s[|s| - 1]];
        assert s != Part(r);
      }
    }
  }

  lemma BadPartRejected(w: seq<byte>)
    requires Completed(w) && NoPart(Unstuff(w))
    ensures var u := Unstuff(w);
            var t := CreateMaster(CLEARED, u);
            && |u| >= 6 && u[..5] == w[..5]
            && t.masterState == MasterFlaw(w) && t.masterState != SeqOk && t.kind == TypeOf(u[1])
            && t.slave == [] && t.slaveState == SeqEmpty
  {
    hide LogicalCrc, Unstuff, IsMaster, Exts, TypeOf;
    var u := Unstuff(w);
    HeadedIsPlain(w);
    UnstuffShrinks(w);
    UnstuffPlainPrefix(w, 5);
    assert forall k :: 0 <= k < 5 ==> u[k] == u[..5][k] == w[..5][k] == w[k];
    HeaderOfRejected(w, u);
    var n := 5 + u[4];
    if |u| == n + 1 {
      assert u == u[..n] + [u[n]];
      assert ValidMaster(u[..n]);
      assert Part(u[..n]) != u;
    }
  }

  lemma HeaderOfRejected(w: seq<byte>, u: seq<byte>)
    requires Headed(w) && |u| >= 6 && forall k :: 0 <= k < 5 ==> u[k] == w[k]
    ensures IsMaster(u[0]) && IsTarget(u[1]) && !NeedsEscape(u[2]) && !NeedsEscape(u[3]) && u[4] <= MAX_DATA_BYTES
  {
    hide IsMaster, IsTarget, NeedsEscape;
    assert !Implausible(0, w[0]) && !Implausible(1, w[1]) && !Implausible(2, w[2]);
    assert !Implausible(3, w[3]) && !Implausible(4, w[4]);
  }

  /** The node that refused a part for itself. */
  function Refused(n: Node): Node {
    n.(state := ReactiveSendMasterNegativeAcknowledge,
       passive := n.passive.(tel := CLEARED, master := EMPTY, masterDbx := 0))
  }

  /** What a complete part that stands for none does: NAK if it is for us; otherwise nothing is written. */
  lemma BadPartJudged(n: Node, w: seq<byte>, reply: Buffer)
    requires Waiting(n) && Completed(w) && NoPart(Unstuff(w))
    ensures |w| >= 6
    ensures var u := Unstuff(w);
            var e := MasterComplete(Start(RawMid(n, w, |w|)), reply);
            if w[1] == n.source || w[1] == n.target then
              e == Effect(Refused(n), Some(NAK), [Failed(ErrorReactiveMaster, MasterFlaw(w), u, [])])
            else if w[1] == BROADCAST then
              e == Effect(n.(passive := IDLE_PASSIVE), None, [Failed(ErrorPassiveMaster, MasterFlaw(w), u, [])])
            else
              && e.write == None && e.outs == [] && e.node.state == PassiveReceiveMasterAcknowledge
              && e.node.passive.tel.masterState == MasterFlaw(w)
  {
    hide LogicalCrc, Unstuff, IsMaster, SlaveOf, Exts, CreateMaster, MasterAccepted, MasterFlaw, Completed;
    BadPartRejected(w);
    CompletedIsLong(w);
    var u := Unstuff(w);
    assert u[1] == u[..5][1] == w[..5][1] == w[1];
    assert w[..|w|] == w;
  }

  lemma CompletedIsLong(w: seq<byte>)
    requires Completed(w)
    ensures |w| >= 6
  {
    ExtsConcat([], w);
  }

  // ---------- What follows the answer ----------

  /** A part for our master address is delivered when its acknowledge is read back. */
  lemma OwnPartDelivered(n: Node, w: seq<byte>, m: seq<byte>, i: Input)
    requires Waiting(n) && |w| >= 5 && DoneTel(CreateMaster(CLEARED, Part(m)), m) && KindOf(m) == MasterMaster
    ensures Step(Held(n, w, m, ReactiveSendMasterPositiveAcknowledge), i) ==
            Effect(n.(passive := IDLE_PASSIVE), None, [Delivered(ReactiveMessage, MasterMaster, m, [])])
  {
    hide LogicalCrc, ValidMaster, CreateMaster, Exts, KindOf;
  }

  /** After the first refusal the node waits for one repetition; after the second it reports giving up. */
  lemma RefusalReadBack(n: Node, i: Input)
    requires Waiting(n)
    ensures Step(Refused(n), i) ==
            if !n.passive.masterRepeated then Start(n.(passive := n.passive.(masterRepeated := true)))
            else Effect(n.(passive := IDLE_PASSIVE), None, [Failed(ErrorReactiveMasterAck, SeqEmpty, [], [])])
  {
  }

  /** What follows a reply of ours, by the next byte. */
  lemma ReplyAnswer(n: Node, i: Input)
    requires Inv(n) && n.state == ReactiveReceiveSlaveAcknowledge
    ensures |WirePart(n.passive.tel.slave)| >= 2
    ensures var m, s := n.passive.tel.master, n.passive.tel.slave;
            var idle := n.(state := PassiveReceiveMaster, passive := IDLE_PASSIVE);
            Step(n, i) ==
            if i.b == ACK then Effect(idle, None, [Delivered(ReactiveMessage, MasterSlave, m, s)])
            else if i.b == NAK && !n.passive.slaveRepeated then
              Effect(n.(state := ReactiveSendSlave, passive := n.passive.(slaveRepeated := true, slaveIndex := 0)),
                     Some(WirePart(s)[0]), [])
            else Effect(idle, None, [Failed(ErrorReactiveSlaveAck, SeqOk, Part(m), WirePart(s))])
  {
    hide LogicalCrc, IsMaster, SlaveOf, TypeOf, KindOf, ValidMaster, Exts, Stuff, ActiveIdle, ReplyBuffer;
    ReplyIsPart(n.passive.tel);
  }

  // ---------- Whole receptions ----------

  lemma WireIsCompleted(m: seq<byte>)
    requires ValidMaster(m)
    ensures Completed(WirePart(m)) && Unstuff(WirePart(m)) == Part(m) && WirePart(m)[1] == m[1]
  {
    hide Stuff, Unstuff, LogicalCrc, Exts, ValidMaster;
    MasterHeader(m);
    ValidIsHeaded(m);
    var w := WirePart(m);
    assert forall k :: 0 <= k < 5 ==> w[k] == w[..5][k] == m[..5][k] == m[k];
    PartLengthByHeader(m);
    PlainOfStuffed(Part(m));
  }

  lemma PartLengthByHeader(m: seq<byte>)
    requires ValidMaster(m)
    ensures |Part(m)| == 6 + m[4]
  {
  }

  /** A valid part for our master address: ACK, and the telegram delivered once. */
  lemma OwnMasterPart(n: Node, m: seq<byte>, ins: seq<Input>, back: Input)
    requires Waiting(n) && HasAddresses(n) && ValidMaster(m) && m[1] == n.source && Carries(ins, WirePart(m))
    ensures Run(n, ins + [back]) ==
            Outcome(n.(passive := IDLE_PASSIVE), [ACK], [Delivered(ReactiveMessage, MasterMaster, m, [])])
  {
    hide Run, Step, WirePart, Unstuff, ValidMaster, SlaveOf, IsMaster, MasterComplete, RawMid, Held, Waiting, HasAddresses, Part;
    var w := WirePart(m);
    WireIsCompleted(m);
    CompletedIsJudged(n, w, ins);
    CompletedIsLong(w);
    OwnAddressesDiffer(n);
    KindIsTyped(m);
    GoodPartJudged(n, w, m, ins[|w| - 1].reply);
    OwnPartDelivered(n, w, m, back);
    var x := Held(n, w, m, ReactiveSendMasterPositiveAcknowledge);
    RunConcat(n, ins, [back]);
    RunOne(x, back);
  }

  /** The inputs bring a complete bad part for this node and the byte read after it, or nothing. */
  ghost predicate BringsBadPart(n: Node, ins: seq<Input>, bad: Option<seq<byte>>) {
    if bad.Some? then
      var w := bad.value;
      && Completed(w) && NoPart(Unstuff(w)) && (w[1] == n.source || w[1] == n.target)
      && |ins| == |w| + 1 && Carries(ins[..|w|], w)
    else ins == []
  }

  function BadPartReport(n: Node, bad: Option<seq<byte>>): seq<Output>
    requires bad.Some? ==> |bad.value| >= 5
  {
    if bad.None? then []
    else
      [Failed(ErrorReactiveMaster, MasterFlaw(bad.value), Unstuff(bad.value), [])] +
      (if n.passive.masterRepeated then [Failed(ErrorReactiveMasterAck, SeqEmpty, [], [])] else [])
  }

  /** A bad part for this node is answered NAK and reported; then the node waits again, as for a repetition. */
  lemma BadPartPhase(n: Node, bad: Option<seq<byte>>, ins: seq<Input>) returns (q: Node)
    requires Waiting(n) && BringsBadPart(n, ins, bad)
    ensures bad.Some? ==> |bad.value| >= 5
    ensures Run(n, ins) == Outcome(q, if bad.Some? then [NAK] else [], BadPartReport(n, bad))
    ensures Waiting(q) && q == n.(passive := q.passive) && q.passive.(masterRepeated := false) == IDLE_PASSIVE
    ensures bad.Some? ==> q.passive.masterRepeated == !n.passive.masterRepeated
  {
    hide Run, Step, Unstuff, MasterComplete, RawMid, MasterFlaw;
    q := n;
    if bad.Some? {
      var w := bad.value;
      CompletedIsLong(w);
      var a, last := ins[..|w|], ins[|w|];
      assert ins == a + [last];
      CompletedIsJudged(n, w, a);
      BadPartJudged(n, w, a[|w| - 1].reply);
      RefusalReadBack(n, last);
      RunConcat(n, a, [last]);
      RunOne(Refused(n), last);
      q := if n.passive.masterRepeated then n.(passive := IDLE_PASSIVE)
           else n.(passive := n.passive.(masterRepeated := true));
    } else {
      RunNothing(n, ins);
    }
  }

  /**
   * A master-master message for us, with or without a bad attempt before it: the bad attempt is answered
   * NAK and reported once, the good part is answered ACK and delivered once, and the node is idle.
   */
  lemma AddresseeAccepts(n: Node, m: seq<byte>, bad: Option<seq<byte>>, first: seq<Input>, ins: seq<Input>, back: Input)
    requires Waiting(n) && HasAddresses(n) && BringsBadPart(n, first, bad)
    requires ValidMaster(m) && m[1] == n.source && Carries(ins, WirePart(m))
    ensures bad.Some? ==> |bad.value| >= 5
    ensures Run(n, first + (ins + [back])) ==
            Outcome(n.(passive := IDLE_PASSIVE), (if bad.Some? then [NAK] else []) + [ACK],
                    BadPartReport(n, bad) + [Delivered(ReactiveMessage, MasterMaster, m, [])])
  {
    hide Run, WirePart, Waiting, HasAddresses, BringsBadPart, BadPartReport, ValidMaster;
    var q := BadPartPhase(n, bad, first);
    RunConcat(n, first, ins + [back]);
    assert HasAddresses(q) by { SameAddresses(n, q); }
    OwnMasterPart(q, m, ins, back);
  }

  lemma SameAddresses(n: Node, q: Node)
    requires HasAddresses(n) && q.source == n.source && q.target == n.target
    ensures HasAddresses(q)
  {
  }
}
