/** Request and Handler composed: one bus event is one step of both. */
module BusHandler {
  import opened Bytes
  import opened Telegram
  import opened Handler
  import opened HandlerInvariant
  import Steps = HandlerSteps
  import Runs = HandlerRuns
  import Machine = HandlerObject
  import R = Request
  import opened Reception
  import opened Streaming
  import opened Transmission

  datatype Station = Station(arbiter: R.Arbiter, node: Node)

  datatype Event =
    | Bus(b: byte, busRequest: bool, reply: Buffer)
    | Send(message: seq<byte>)
    | ExternalAsk(address: byte)
    | ResetHandler

  /** What the arbiter and the node are when the byte of a bus event reaches them. */
  function Arm(x: Station, busRequest: bool): Station {
    if busRequest then
      Station(R.Complete(x.arbiter), if x.arbiter.external then x.node else OnBusRequested(x.node))
    else x
  }

  function InputOf(x: Station, ev: Event): Input
    requires ev.Bus?
  {
    Input(ev.b, R.Step(x.arbiter, ev.b).result, ev.reply)
  }

  function WantsBus(before: Node, b: byte, after: Node): bool {
    before.state == PassiveReceiveMaster && b == SYN && after.active.message
  }

  /** onBusEvent: the arbiter first, then the handler with its verdict, then a request for the bus if it wants one. */
  function OnBus(x: Station, ev: Event): (Station, Effect)
    requires ev.Bus?
  {
    var y := Arm(x, ev.busRequest);
    var e := Step(y.node, InputOf(y, ev));
    var a := R.Step(y.arbiter, ev.b);
    (Station(if WantsBus(y.node, ev.b, e.node) then R.Ask(a, y.node.source, false) else a, e.node), e)
  }

  function Apply(x: Station, ev: Event): Station {
    match ev
    case Bus(_, _, _) => OnBus(x, ev).0
    case Send(message) => x.(node := SendActiveMessage(x.node, message))
    case ExternalAsk(address) => x.(arbiter := R.Ask(x.arbiter, address, true))
    case ResetHandler => x.(node := ResetNode(x.node))
  }

  /** The bus driver raises a bus request only for a pending one, and where the handler expects it. */
  predicate Fits(x: Station, ev: Event) {
    ev.Bus? && ev.busRequest ==>
      && x.arbiter.pending
      && (!x.arbiter.external ==> Runs.Fits(x.node, Runs.Receive(Input(ev.b, R.ObserveData, ev.reply), true)))
  }

  // ---------- The joint invariant ----------

  /** An arbitration in progress shows in the last result. */
  predicate InProgress(a: R.Arbiter) {
    && (a.state == R.First ==> a.result == R.FirstSyn)
    && (a.state == R.Retry ==> a.result == R.FirstRetry)
    && (a.state == R.Second ==> a.result == R.RetrySyn)
  }

  /** While the handler waits for a verdict, the arbiter is contending with the handler's own address. */
  predicate Joint(x: Station) {
    && Inv(x.node)
    && InProgress(x.arbiter)
    && ((x.arbiter.pending || x.arbiter.state != R.Observe) && !x.arbiter.external ==> x.arbiter.address == x.node.source)
    && (x.node.state == RequestBus ==> x.arbiter.state != R.Observe && !x.arbiter.external)
  }

  /** The moment the byte arrives. */
  predicate Armed(y: Station) {
    && Inv(y.node)
    && (y.arbiter.state != R.Observe && !y.arbiter.external ==> y.arbiter.address == y.node.source)
    && (y.arbiter.pending && !y.arbiter.external ==> y.arbiter.address == y.node.source)
    && (y.node.state == RequestBus ==> y.arbiter.state != R.Observe && !y.arbiter.external)
  }

  lemma ArmKeeps(x: Station, ev: Event)
    requires Joint(x) && Fits(x, ev) && ev.Bus?
    ensures Armed(Arm(x, ev.busRequest)) && Arm(x, ev.busRequest).node.source == x.node.source
  {
    hide Inv, SendActiveMessage;
    var n := x.node;
    var h := Runs.Receive(Input(ev.b, R.ObserveData, ev.reply), true);
    if ev.busRequest && !x.arbiter.external {
      Runs.GoodReady(n, h);
      assert Runs.Ready(n, h) == OnBusRequested(n);
    }
  }

  lemma VerdictStates(n: Node, b: byte)
    requires n.state == RequestBus && |MasterBuffer(n.active.tel).bytes| >= 6
    ensures ArbitrationWon(Steps.Start(n)).node.state == ActiveSendMaster
    ensures ArbitrationLost(Steps.Start(n), b).node.state == PassiveReceiveMaster
    ensures ArbitrationFailed(Steps.Start(n)).node.state == PassiveReceiveMaster
  {
    hide MasterBuffer;
  }

  /** The state a handler leaves request_bus for follows the verdict. */
  lemma VerdictDecides(n: Node, b: byte, result: R.RequestResult)
    requires n.state == RequestBus && HoldsMaster(n.active.tel)
    ensures var s := OnRequestBus(Steps.Start(n), b, result).node.state;
            && (s == RequestBus <==> result == R.FirstSyn || result == R.FirstRetry || result == R.RetrySyn)
            && (s == ActiveSendMaster <==> result == R.FirstWon || result == R.SecondWon)
  {
    hide HoldsMaster, MasterBuffer, ArbitrationWon, ArbitrationLost, ArbitrationFailed;
    Steps.MasterIsPart(n.active.tel);
    VerdictStates(n, b);
  }

  lemma ContenderHasMessage(n: Node)
    requires Inv(n) && n.state == RequestBus
    ensures HoldsMaster(n.active.tel)
  {
    hide IsMaster, SlaveOf, HoldsMaster, MasterCounted;
  }

  /** What a byte does to the handler as far as arbitration is concerned. */
  lemma StepFacts(n: Node, i: Input)
    requires Inv(n)
    ensures Inv(Step(n, i).node) && Step(n, i).node.source == n.source && EntersInOrder(n, Step(n, i).node)
    ensures n.state == RequestBus ==>
              var s := Step(n, i).node.state;
              && (s == RequestBus <==> i.result == R.FirstSyn || i.result == R.FirstRetry || i.result == R.RetrySyn)
              && (s == ActiveSendMaster <==> i.result == R.FirstWon || i.result == R.SecondWon)
  {
    hide Inv, Step, EntersInOrder, Sound, OnRequestBus;
    Steps.GoodByte(n, i);
    if n.state == RequestBus {
      ArbitrationStep(n, i);
      ContenderHasMessage(n);
      VerdictDecides(n, i.b, i.result);
    }
  }

  lemma JointStep(x: Station, ev: Event)
    requires Joint(x) && Fits(x, ev)
    ensures Joint(Apply(x, ev)) && Apply(x, ev).node.source == x.node.source
  {
    hide Inv, Step, SendActiveMessage, ResetNode, OnBusRequested, IsMaster;
    match ev {
      case Bus(_, _, _) =>
        ArmKeeps(x, ev);
        var y := Arm(x, ev.busRequest);
        var i := InputOf(y, ev);
        StepFacts(y.node, i);
      case Send(message) =>
        Runs.GoodSend(x.node, message);
        assert SendActiveMessage(x.node, message).source == x.node.source by { SendKeepsSource(x.node, message); }
      case ExternalAsk(_) =>
      case ResetHandler =>
        Runs.GoodReset(x.node);
        assert ResetNode(x.node).state != RequestBus && ResetNode(x.node).source == x.node.source by { ResetIsIdle(x.node); }
    }
  }

  lemma SendKeepsSource(n: Node, message: seq<byte>)
    ensures SendActiveMessage(n, message).source == n.source
  {
  }

  lemma ResetIsIdle(n: Node)
    ensures ResetNode(n).state == PassiveReceiveMaster && ResetNode(n).source == n.source
  {
  }

  function PowerUp(source: byte): Station {
    Station(R.Arbiter(R.Observe, R.ObserveSyn, 3, 3, 0, 0, false, false), InitialNode(source))
  }

  lemma InitialJoint(source: byte)
    ensures Joint(PowerUp(source))
  {
    hide Inv;
    Runs.InitialInv(source);
  }

  // ---------- Runs ----------

  function After(x: Station, evs: seq<Event>): Station {
    if evs == [] then x else Apply(After(x, evs[..|evs| - 1]), evs[|evs| - 1])
  }

  predicate RunFits(x: Station, evs: seq<Event>) {
    evs != [] ==> RunFits(x, evs[..|evs| - 1]) && Fits(After(x, evs[..|evs| - 1]), evs[|evs| - 1])
  }

  lemma {:induction false} JointRun(x: Station, evs: seq<Event>)
    requires Joint(x) && RunFits(x, evs)
    ensures Joint(After(x, evs)) && After(x, evs).node.source == x.node.source
  {
    hide Joint, Fits, Apply;
    if evs != [] {
      JointRun(x, evs[..|evs| - 1]);
      JointStep(After(x, evs[..|evs| - 1]), evs[|evs| - 1]);
    }
  }

  predicate Transmits(s: HandlerState) {
    s == ActiveSendMaster
  }

  lemma TransmitsFromJoint(x: Station, evs: seq<Event>, ev: Event)
    requires Joint(x) && RunFits(x, evs) && Fits(After(x, evs), ev) && ev.Bus?
    ensures After(x, evs).node.source == x.node.source
    ensures StartsWithOwnAddress(After(x, evs), ev)
  {
    hide Inv, Step, OnBusRequested, Runs.Fits, IsMaster;
    JointRun(x, evs);
    var z := After(x, evs);
    ArmKeeps(z, ev);
    var y := Arm(z, ev.busRequest);
    SourceIsNotSyn(y.node);
    StepFacts(y.node, InputOf(y, ev));
  }

  /** Waiting for the verdict, a station is contending, and it transmits next exactly if it reads its own address. */
  predicate StartsWithOwnAddress(z: Station, ev: Event)
    requires ev.Bus?
  {
    var y := Arm(z, ev.busRequest);
    var e := OnBus(z, ev).1;
    && (y.node.state == RequestBus ==>
          && y.arbiter.state != R.Observe && y.arbiter.address == z.node.source
          && (Transmits(e.node.state) <==> ev.b == z.node.source && y.arbiter.state != R.Retry))
    && (!Transmits(y.node.state) && y.node.state != ActiveReceiveMasterAcknowledge && Transmits(e.node.state) ==>
          y.node.state == RequestBus && ev.b == z.node.source)
  }

  /**
   * On every run from power-up: a handler starts to transmit as master exactly when, waiting for the
   * arbitration verdict, it reads back its own address, and it is never left waiting for a verdict nobody
   * gives.
   */
  lemma TransmitsOnlyAfterOwnAddress(source: byte, evs: seq<Event>, ev: Event)
    requires RunFits(PowerUp(source), evs) && Fits(After(PowerUp(source), evs), ev) && ev.Bus?
    ensures After(PowerUp(source), evs).node.source == InitialNode(source).source
    ensures StartsWithOwnAddress(After(PowerUp(source), evs), ev)
  {
    hide Joint, StartsWithOwnAddress, RunFits, Fits, After, InitialNode;
    InitialJoint(source);
    TransmitsFromJoint(PowerUp(source), evs, ev);
  }

  lemma SourceIsNotSyn(n: Node)
    requires Inv(n)
    ensures n.source != SYN
  {
    MasterNeedsNoEscape(n.source);
  }

  // ---------- A message on its way to the bus ----------

  /** The arbiter observes, has no request pending, and its lock is paid off by the next SYN at the latest. */
  predicate Unlocked(a: R.Arbiter) {
    a.state == R.Observe && !a.pending && (a.lock == 0 || (a.lock == 1 && a.bytesSinceSyn != 1))
  }

  /** A SYN read by a waiting station with a message has the bus requested with its own address. */
  lemma MessageIsRequested(x: Station, m: seq<byte>, reply: Buffer)
    requires Waiting(x.node) && Ready(x.node.(state := RequestBus), m) && Unlocked(x.arbiter)
    ensures var (z, e) := OnBus(x, Bus(SYN, false, reply));
            && e == Effect(x.node, None, [BusWanted]) && z.node == x.node
            && z.arbiter.pending && !z.arbiter.external && z.arbiter.address == x.node.source
            && z.arbiter.state == R.Observe
  {
    hide HoldsMaster;
    WaitingOnSyn(x.node, Input(SYN, R.ObserveSyn, reply));
  }

  /** A station that completes its request and reads back its own address begins to transmit its message. */
  lemma RequestIsAnswered(z: Station, m: seq<byte>, reply: Buffer)
    requires Waiting(z.node) && Ready(z.node.(state := RequestBus), m)
    requires z.arbiter.pending && !z.arbiter.external && z.arbiter.state == R.Observe
    requires z.arbiter.address == z.node.source && z.node.source != SYN
    ensures |WirePart(m)| >= 6
    ensures var (y, e) := OnBus(z, Bus(z.node.source, true, reply));
            && e == Effect(Sent(z.node, m, false, 1, ActiveSendMaster), Some(WirePart(m)[1]), [Won])
            && y.arbiter.state == R.Observe && !y.arbiter.pending && y.arbiter.lock == z.arbiter.lockMax
  {
    hide HoldsMaster, Step, WirePart, Sent, ActiveIdle, OnBusRequested;
    RequestEntersArbitration(z.node);
    var n := z.node.(state := RequestBus);
    VerdictTable(n, m, Input(z.node.source, R.FirstWon, reply));
    SentFromRequest(z.node, m);
  }

  lemma SentFromRequest(n: Node, m: seq<byte>)
    ensures Sent(n.(state := RequestBus), m, false, 1, ActiveSendMaster) == Sent(n, m, false, 1, ActiveSendMaster)
    ensures Sent(n, m, false, 1, ActiveSendMaster).state == ActiveSendMaster
  {
  }

  /**
   * From a waiting station with a message and a free bus: the next SYN requests the bus, and if nobody
   * outbids its address the second byte of the message follows the first, with the lock armed again.
   */
  lemma MessageGoesOut(x: Station, m: seq<byte>, first: Buffer, second: Buffer)
    requires Waiting(x.node) && Ready(x.node.(state := RequestBus), m) && Unlocked(x.arbiter) && x.node.source != SYN
    ensures |WirePart(m)| >= 6
    ensures var (z, e1) := OnBus(x, Bus(SYN, false, first));
            var (y, e2) := OnBus(z, Bus(x.node.source, true, second));
            && e1.write == None && e1.outs == [BusWanted]
            && e2 == Effect(Sent(x.node, m, false, 1, ActiveSendMaster), Some(WirePart(m)[1]), [Won])
            && y.arbiter.lock == x.arbiter.lockMax
  {
    hide Waiting, Ready, OnBus, WirePart, Sent;
    MessageIsRequested(x, m, first);
    RequestIsAnswered(OnBus(x, Bus(SYN, false, first)).0, m, second);
    assert OnBus(x, Bus(SYN, false, first)).0.arbiter.lockMax == x.arbiter.lockMax by { LockMaxStays(x, first); }
  }

  lemma LockMaxStays(x: Station, reply: Buffer)
    ensures OnBus(x, Bus(SYN, false, reply)).0.arbiter.lockMax == x.arbiter.lockMax
  {
    hide Step;
  }

  // ---------- The object ----------

  class BusHandlerMachine {
    const request: R.Request
    const handler: Machine.HandlerMachine

    constructor (request: R.Request, handler: Machine.HandlerMachine)
      ensures this.request == request && this.handler == handler
    {
      this.request, this.handler := request, handler;
    }

    function Value(): Station
      reads request, handler
    {
      Station(request.Value(), handler.Value())
    }

    method OnBusEvent(b: byte, busRequest: bool, reply: Buffer) returns (write: Option<byte>)
      requires Joint(Value()) && Fits(Value(), Bus(b, busRequest, reply))
      modifies request, handler
      ensures Value() == OnBus(old(Value()), Bus(b, busRequest, reply)).0 && Joint(Value())
      ensures write == OnBus(old(Value()), Bus(b, busRequest, reply)).1.write
    {
      ghost var ev := Bus(b, busRequest, reply);
      JointStep(Value(), ev);
      ArmKeeps(Value(), ev);
      hide Joint, Fits, Inv, Step, OnBusRequested, GoodStep;
      if busRequest {
        var tellHandler := request.BusRequestCompleted();
        if tellHandler {
          handler.BusRequested();
        }
      }
      ghost var y := Value();
      assert y == Arm(old(Value()), busRequest);
      var result := request.Run(b);
      var wantsBus;
      write, wantsBus := handler.Run(Input(b, result, reply));
      if wantsBus {
        StepFacts(y.node, InputOf(y, ev));
        var armed := request.RequestBus(handler.source, false);
      }
    }
  }
}
