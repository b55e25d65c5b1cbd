/**
 * Arbitration and observation joined: which of the nodes that lost the arbitration deliver the exchange
 * of the winner. A loser of another priority class keeps the byte it lost with and follows; a loser of the
 * same class waits for a second round, finds the bus taken and has dropped the first two bytes.
 */
module Losers {
  import opened Bytes
  import opened Stuffing
  import opened Crc
  import opened Telegram
  import opened Parser
  import opened Handler
  import opened HandlerInvariant
  import opened HandlerSteps
  import opened Reception
  import opened Feed
  import opened Streaming
  import opened Effort
  import opened StreamingExact
  import R = Request

  /** Waiting for the verdict, with nothing received. */
  predicate Contending(n: Node) {
    n.state == RequestBus && ActiveIdle(n) && Waiting(n.(state := PassiveReceiveMaster))
  }

  /** The node that has given up its message. */
  function Defeated(n: Node): Node {
    n.(state := PassiveReceiveMaster, active := n.active.(message := false, tel := CLEARED, master := EMPTY))
  }

  predicate IsLoss(result: R.RequestResult) {
    result == R.FirstLost || result == R.SecondLost
  }

  lemma DefeatedWaits(n: Node)
    requires Contending(n)
    ensures Waiting(Defeated(n)) && Defeated(n).active == IDLE_ACTIVE
    ensures Inv(n) ==> Tracked(Defeated(n))
  {
    hide IsMaster, SlaveOf, Exts, LogicalCrc;
  }

  lemma MasterOpens(m: seq<byte>)
    requires ValidMaster(m)
    ensures |WirePart(m)| >= 6 && WirePart(m)[0] == m[0] && WirePart(m)[1] == m[1] && m[0] != EXT && m[1] != EXT && m[1] != SYN
  {
    hide Stuff, Part;
    MasterHeader(m);
    assert WirePart(m)[..5][0] == m[..5][0] && WirePart(m)[..5][1] == m[..5][1];
    MasterNeedsNoEscape(m[0]);
  }

  /** Losing with the first byte of m, the node stands where a waiting node stands after that byte. */
  lemma LosesOneByteIn(n: Node, m: seq<byte>, i: Input)
    requires Contending(n) && ValidMaster(m) && i.b == m[0] && IsLoss(i.result)
    ensures |WirePart(m)| >= 6
    ensures Step(n, i) == Effect(MasterMid(Defeated(n), m, 1), None, [Lost])
  {
    hide WirePart, IsMaster, LogicalCrc;
    MasterOpens(m);
    assert WirePart(m)[..1] == [m[0]];
  }

  lemma WaitsOneByteIn(n: Node, m: seq<byte>, i: Input)
    requires Waiting(n) && ValidMaster(m) && i.b == m[0]
    ensures |WirePart(m)| >= 6
    ensures Step(n, i) == Start(MasterMid(n, m, 1))
  {
    hide WirePart, Step, Waiting, ValidMaster, MasterMid;
    MasterOpens(m);
    MasterMidStart(n, m);
    StepMasterMid(n, m, 0, i);
  }

  /** The part that an exchange begins with. */
  function FirstPart(e: Exchange): seq<byte> {
    if e.refusedMaster.Some? then e.refusedMaster.value else e.master
  }

  lemma WireOpens(e: Exchange)
    requires WellFormed(e)
    ensures ValidMaster(FirstPart(e)) && |Wire(e)| >= 6 && Wire(e)[0] == FirstPart(e)[0]
  {
    hide WirePart, ValidMaster, ValidSlave, KindOf, Wire;
    WireIsParts(e);
    MasterOpens(FirstPart(e));
  }

  /** A loser that keeps the byte delivers the exchange just as a node that only waited. */
  lemma LoserFollows(n: Node, e: Exchange, ins: seq<Input>)
    requires Contending(n) && WellFormed(e) && ForeignExchange(n, e) && Carries(ins, Wire(e))
    requires ins != [] && IsLoss(ins[0].result)
    ensures Run(n, ins) == Outcome(Defeated(n).(passive := IDLE_PASSIVE), [],
                                   [Lost] + (StaleReport(n, e.refusedMaster) + [Observed(e)]))
  {
    hide Step, WellFormed, ForeignExchange, Wire, Contending, MasterMid, WirePart, ValidMaster, Waiting, StaleReport, Observed;
    WireOpens(e);
    DefeatedWaits(n);
    var m, d := FirstPart(e), Defeated(n);
    LosesOneByteIn(n, m, ins[0]);
    WaitsOneByteIn(d, m, ins[0]);
    assert ForeignExchange(d, e) && StaleReport(d, e.refusedMaster) == StaleReport(n, e.refusedMaster) by { SameView(n, e); }
    StreamingDelivers(d, e, ins);
    assert Run(d, ins) == Run(MasterMid(d, m, 1), ins[1..]);
  }

  lemma SameView(n: Node, e: Exchange)
    ensures ForeignExchange(n, e) ==> ForeignExchange(Defeated(n), e)
    ensures StaleReport(Defeated(n), e.refusedMaster) == StaleReport(n, e.refusedMaster)
  {
  }

  // ---------- With the arbitration automaton ----------

  /** The verdicts are those that the arbiter gives on the same bytes. */
  predicate Judged(a: R.Arbiter, ins: seq<Input>)
    decreases |ins|
  {
    ins == [] || (ins[0].result == R.Step(a, ins[0].b).result && Judged(R.Step(a, ins[0].b), ins[1..]))
  }

  /** What the arbiter says to a byte that is another master's address. */
  lemma VerdictOnWinner(a: R.Arbiter, b: byte)
    requires IsMaster(b) && b != a.address
    ensures a.state == R.Second ==> R.Step(a, b).result == R.SecondLost
    ensures a.state == R.First && b % 16 != a.address % 16 ==> R.Step(a, b).result == R.FirstLost
    ensures a.state == R.First && b % 16 == a.address % 16 ==>
              R.Step(a, b).result == R.FirstRetry && R.Step(a, b).state == R.Retry
  {
    hide IsMaster;
    MasterNeedsNoEscape(b);
  }

  lemma VerdictOnTarget(a: R.Arbiter, b: byte)
    requires a.state == R.Retry && b != SYN
    ensures R.Step(a, b).result == R.RetryError
  {
  }

  lemma RetryThenError(n: Node, i: Input)
    requires Contending(n)
    ensures i.result == R.FirstRetry ==> Step(n, i) == Start(n)
    ensures i.result == R.RetryError ==> Step(n, i) == Effect(Defeated(n), None, [Lost])
  {
    hide Exts, LogicalCrc;
  }

  /** A loser of the winner's own class begins afresh behind the first two bytes. */
  lemma ClassmateDropsTwo(n: Node, a: R.Arbiter, m: seq<byte>, ins: seq<Input>)
    requires Contending(n) && a.state == R.First && ValidMaster(m) && m[0] != a.address && m[0] % 16 == a.address % 16
    requires Judged(a, ins) && |ins| >= 2 && ins[0].b == m[0] && ins[1].b == m[1]
    ensures Run(n, ins) == Then(Outcome(Defeated(n), [], [Lost]), Run(Defeated(n), ins[2..]))
  {
    hide Step, Contending, R.Step, IsMaster;
    MasterOpens(m);
    VerdictOnWinner(a, m[0]);
    VerdictOnTarget(R.Step(a, m[0]), m[1]);
    RetryThenError(n, ins[0]);
    RetryThenError(n, ins[1]);
    RunQuietly(n, n, ins);
    assert ins[1..][0] == ins[1] && ins[1..][1..] == ins[2..];
    assert Judged(R.Step(a, m[0]), ins[1..]);
    assert Run(n, ins[1..]) == Then(OutcomeOf(Step(n, ins[1])), Run(Defeated(n), ins[2..]));
  }

  lemma BareWire(m: seq<byte>, s: seq<byte>)
    requires ValidMaster(m) && KindOf(m) == MasterSlave && ValidSlave(s)
    ensures var e := Exchange(None, m, None, Some(s));
            WellFormed(e) && Wire(e) == Stuff(Bare(m, s))
  {
    hide ValidMaster, ValidSlave, KindOf, Stuff, Part;
    assert Logical(Exchange(None, m, None, Some(s))) == Bare(m, s);
  }

  lemma BareOpens(m: seq<byte>, s: seq<byte>)
    requires ValidMaster(m)
    ensures var w := Stuff(Bare(m, s));
            |w| >= 6 && w[0] == m[0] && w[1] == m[1] && |Bare(m, s)| == Whole(m, s)
  {
    hide ValidMaster, Stuff, LogicalCrc;
    StuffConcat(Part(m), [ACK] + (Part(s) + [ACK]));
    MasterOpens(m);
  }

  /** Behind the first two bytes too little is left of the exchange to deliver it. */
  lemma ClassmateMisses(n: Node, m: seq<byte>, s: seq<byte>, ins: seq<Input>)
    requires Tracked(n) && Waiting(n) && ValidMaster(m) && ValidSlave(s)
    requires |ins| >= 2 && Carries(ins, Stuff(Bare(m, s)))
    ensures Target(m, s) !in Run(n, ins[2..]).outs
  {
    hide Run, Stuff, Tracked, ValidMaster, ValidSlave, Target, Bare, Plain;
    var w := Stuff(Bare(m, s));
    BareOpens(m, s);
    MasterOpens(m);
    PlainOfStuffed(Bare(m, s));
    assert w == [w[0], w[1]] + w[2..];
    PlainConcat([w[0], w[1]], w[2..]);
    TwoPlain(w[0], w[1]);
    assert forall k :: 0 <= k < |w| - 2 ==> ins[2..][k].b == w[2..][k];
    PlainsCarried(ins[2..], w[2..]);
    NeedAtMostWhole(n, m, s);
    if Target(m, s) in Run(n, ins[2..]).outs {
      DeliveryIsPaid(n, ins[2..], m, s);
    }
  }

  lemma TwoPlain(b: byte, c: byte)
    requires b != EXT && c != EXT
    ensures Plain([b, c]) == 2
  {
    NoExts([b, c]);
  }

  /**
   * A node that contended and lost to the sender of a foreign master-slave exchange, stepped with its own
   * arbiter on the bytes of the session: in the first round it delivers the exchange if and only if its
   * priority class is another one, in the second round always.
   */
  lemma LosersDeliver(n: Node, a: R.Arbiter, m: seq<byte>, s: seq<byte>, ins: seq<Input>)
    requires Inv(n) && Contending(n) && (a.state == R.First || a.state == R.Second) && a.address == n.source
    requires ValidMaster(m) && KindOf(m) == MasterSlave && ValidSlave(s) && Foreign(n, m) && m[0] != n.source
    requires Carries(ins, Stuff(Bare(m, s))) && Judged(a, ins)
    ensures Target(m, s) in Run(n, ins).outs <==> a.state == R.Second || m[0] % 16 != n.source % 16
    ensures a.state == R.Second || m[0] % 16 != n.source % 16 ==>
              Run(n, ins) == Outcome(Defeated(n).(passive := IDLE_PASSIVE), [], [Lost, Target(m, s)])
    ensures !(a.state == R.Second || m[0] % 16 != n.source % 16) ==>
              |ins| >= 2 && Run(n, ins) == Then(Outcome(Defeated(n), [], [Lost]), Run(Defeated(n), ins[2..]))
  {
    hide Run, Inv, Contending, R.Step, KindOf, ValidSlave, Foreign, Bare, Stuff, Wire, Waiting, Tracked, IsMaster;
    BareWire(m, s);
    BareOpens(m, s);
    DefeatedWaits(n);
    VerdictOnWinner(a, m[0]);
    var e := Exchange(None, m, None, Some(s));
    if a.state == R.Second || m[0] % 16 != n.source % 16 {
      LoserFollows(n, e, ins);
      assert [Lost] + (StaleReport(n, None) + [Observed(e)]) == [Lost, Target(m, s)];
    } else {
      ClassmateDropsTwo(n, a, m, ins);
      ClassmateMisses(Defeated(n), m, s, ins);
    }
  }
}
