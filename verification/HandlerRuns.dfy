/** Whole runs of a handler: any interleaving of bytes, bus-request events, send calls and resets. */
module HandlerRuns {
  import opened Bytes
  import opened Stuffing
  import opened Crc
  import opened Telegram
  import opened Handler
  import opened HandlerInvariant
  import opened HandlerSteps
  import Request

  datatype Event = Receive(i: Input, busRequest: bool) | Send(message: seq<byte>) | Reset

  /** The node that handles the byte of an event: a completed bus request is told first. */
  function Ready(n: Node, ev: Event): Node {
    if ev.Receive? && ev.busRequest then OnBusRequested(n) else n
  }

  function Apply(n: Node, ev: Event): Effect {
    match ev
    case Receive(i, _) => Step(Ready(n, ev), i)
    case Send(message) => Start(SendActiveMessage(n, message))
    case Reset => Start(ResetNode(n))
  }

  function After(n: Node, evs: seq<Event>): Node {
    if evs == [] then n else Apply(After(n, evs[..|evs| - 1]), evs[|evs| - 1]).node
  }

  /** A bus request completes only while arbitrating, or while no master part is being received. */
  predicate Fits(n: Node, ev: Event) {
    ev.Receive? && ev.busRequest ==>
      n.state == RequestBus || (n.state == PassiveReceiveMaster && NotStarted(n.passive))
  }

  predicate RunFits(n: Node, evs: seq<Event>) {
    evs != [] ==> RunFits(n, evs[..|evs| - 1]) && Fits(After(n, evs[..|evs| - 1]), evs[|evs| - 1])
  }

  lemma GoodReady(n: Node, ev: Event)
    requires Inv(n) && Fits(n, ev)
    ensures Inv(Ready(n, ev))
  {
    hide LogicalCrc, IsMaster, SlaveOf, TypeOf, KindOf, ValidMaster, ValidSlave, Exts, Counted, Part, Stuff, Unstuff;
  }

  lemma GoodSend(n: Node, message: seq<byte>)
    requires Inv(n)
    ensures Inv(SendActiveMessage(n, message))
    ensures SendActiveMessage(n, message).state == n.state
  {
    hide LogicalCrc, IsMaster, SlaveOf, TypeOf, KindOf, ValidSlave, Exts, Counted, Stuff, Unstuff, CreateMaster,
         MasterInHand, ReplyInHand, MasterBuffer, MasterCounted;
    if !n.active.message && message != [] {
      var s := [n.source] + message;
      CreateMasterExact(n.active.tel, s);
      var m := CreateMaster(n.active.tel, s).master;
      assert s[0] == n.source && (|m| > 0 ==> Part(m)[0] == m[0]);
    }
  }

  lemma GoodReset(n: Node)
    requires Inv(n)
    ensures Inv(ResetNode(n))
    ensures ResetNode(n) == Node(PassiveReceiveMaster, n.source, n.target, IDLE_PASSIVE, IDLE_ACTIVE)
  {
    hide IsMaster, SlaveOf, Exts;
  }

  lemma GoodEvent(n: Node, ev: Event)
    requires Inv(n) && Fits(n, ev)
    ensures Inv(Apply(n, ev).node)
    ensures ev.Receive? ==> GoodStep(Ready(n, ev), ev.i.b, Apply(n, ev))
    ensures !ev.Receive? ==> Apply(n, ev).outs == [] && Apply(n, ev).write == None
  {
    hide Inv, Fits, Step, ResetNode, SendActiveMessage, OnBusRequested, Sound;
    match ev {
      case Receive(i, _) =>
        GoodReady(n, ev);
        GoodByte(Ready(n, ev), i);
      case Send(message) => GoodSend(n, message);
      case Reset => GoodReset(n);
    }
  }

  lemma {:induction false} RunKeepsInvariant(n: Node, evs: seq<Event>)
    requires Inv(n) && RunFits(n, evs)
    ensures Inv(After(n, evs))
  {
    hide Inv, Fits, Apply;
    if evs != [] {
      RunKeepsInvariant(n, evs[..|evs| - 1]);
      GoodEvent(After(n, evs[..|evs| - 1]), evs[|evs| - 1]);
    }
  }

  lemma InitialInv(source: byte)
    ensures Inv(InitialNode(source))
    ensures InitialNode(source).source == if IsMaster(source) then source else 0xFF
  {
    hide Exts;
  }

  /**
   * On every run from power-up: no illegal transition is ever reported, every delivery is sound, and
   * an idle handler has empty active buffers and an empty passive slave buffer at index 0.
   */
  lemma EveryRun(source: byte, evs: seq<Event>, ev: Event)
    requires RunFits(InitialNode(source), evs + [ev])
    ensures var n := After(InitialNode(source), evs);
            && (n.state == PassiveReceiveMaster ==>
                  && n.active.master == EMPTY && n.active.slave == EMPTY
                  && n.passive.slave == EMPTY && n.passive.slaveIndex == 0)
            && (forall i :: 0 <= i < |Apply(n, ev).outs| ==>
                  var o := Apply(n, ev).outs[i];
                  !(o.Failed? && o.error == IllegalFsmTransition) && (ev.Receive? ==> Sound(Ready(n, ev), ev.i.b, o)))
  {
    hide Sound, Apply, Fits, MasterCounted, HoldsMaster, HoldsSlave, ReplyInHand, MasterInHand, ActiveBusy;
    assert (evs + [ev])[..|evs|] == evs;
    InitialInv(source);
    RunKeepsInvariant(InitialNode(source), evs);
    GoodEvent(After(InitialNode(source), evs), ev);
  }

  /** A bus request right after a SYN handled while idle or arbitrating fits, whatever is sent in between. */
  lemma SynMakesRoom(n: Node, i: Input, message: seq<byte>, ev: Event)
    requires Inv(n) && i.b == SYN && (n.state == PassiveReceiveMaster || n.state == RequestBus)
    requires i.result != Request.FirstWon && i.result != Request.SecondWon
    ensures Fits(Step(n, i).node, ev) && Fits(SendActiveMessage(Step(n, i).node, message), ev)
  {
    hide LogicalCrc, SlaveOf, TypeOf, KindOf, ValidMaster, ValidSlave, Exts, Counted, Part, Stuff, Unstuff, CreateMaster,
         HoldsMaster;
    if n.state == PassiveReceiveMaster {
      GoodPassiveSyn(n, i.reply);
    }
  }
}
