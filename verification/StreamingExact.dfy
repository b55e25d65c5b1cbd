/**
 * When streaming and parsing agree on bytes of whatever stuffing, exactly: for a broadcast and a
 * master-master exchange if they are properly stuffed; for a master-slave exchange if the master part is
 * properly stuffed and every 0xA9 of the slave part opens an escape pair, a bare SYN there being harmless.
 */
module StreamingExact {
  import opened Bytes
  import opened Stuffing
  import opened Crc
  import opened Telegram
  import opened Parser
  import opened Handler
  import opened HandlerInvariant
  import opened HandlerSteps
  import opened Reception
  import opened Feed
  import opened Streaming
  import opened Effort
  import opened RawReception
  import Request

  /** If unstuffing drops one byte for every 0xA9, every 0xA9 opens an escape pair. */
  lemma {:induction false} CompleteEscapes(v: seq<byte>)
    requires SYN !in v && |Unstuff(v)| == |v| - Exts(v)
    ensures Stuffed(v)
  {
    if v != [] {
      hide Exts;
      var k := if |v| >= 2 && IsEscape(v[0], v[1]) then 2 else 1;
      assert v == v[..k] + v[k..];
      ExtsConcat(v[..k], v[k..]);
      UnstuffShrinks(v[k..]);
      HeadExts(v, k);
      CompleteEscapes(v[k..]);
    }
  }

  lemma HeadExts(v: seq<byte>, k: nat)
    requires 1 <= k <= |v| && k <= 2 && (k == 2 ==> IsEscape(v[0], v[1]))
    ensures Exts(v[..k]) == if v[0] == EXT then 1 else 0
  {
    hide Exts;
    NoExts([]);
    ExtsSnoc([], v[0]);
    assert [] + [v[0]] == [v[0]] == v[..1];
    if k == 2 {
      ExtsSnoc([v[0]], v[1]);
      assert [v[0]] + [v[1]] == v[..2];
    }
  }

  /** A header without escapes reads the same before and after unstuffing. */
  lemma {:induction false} HeaderBack(w: seq<byte>, k: nat)
    requires k <= |Unstuff(w)| && forall i :: 0 <= i < k ==> !NeedsEscape(Unstuff(w)[i])
    ensures k <= |w| && w[..k] == Unstuff(w)[..k]
  {
    if k > 0 {
      UnstuffHead(w);
      assert Unstuff(w)[0] == w[0] && Unstuff(w)[1..] == Unstuff(w[1..]);
      assert forall i :: 0 <= i < k - 1 ==> Unstuff(w[1..])[i] == Unstuff(w)[i + 1];
      HeaderBack(w[1..], k - 1);
      assert w[..k] == [w[0]] + w[1..][..k - 1];
      assert Unstuff(w)[..k] == [w[0]] + Unstuff(w[1..])[..k - 1];
    }
  }

  // ---------- A master part of whatever stuffing ----------

  /** Wire bytes, of whatever stuffing, that stand for the part m and then for `rest`. */
  predicate Carrier(w: seq<byte>, m: seq<byte>, rest: seq<byte>) {
    ValidMaster(m) && Unstuff(w) == Part(m) + rest
  }

  lemma CarrierHeader(w: seq<byte>, m: seq<byte>, rest: seq<byte>)
    requires Carrier(w, m, rest)
    ensures Headed(w) && |w| >= 5 && w[..5] == m[..5] && |m| == 5 + w[4]
  {
    hide Unstuff, LogicalCrc, IsMaster;
    MasterNeedsNoEscape(m[0]);
    var u := Part(m) + rest;
    assert u[..5] == m[..5];
    assert forall i :: 0 <= i < 5 ==> u[i] == m[i] && !NeedsEscape(m[i]);
    HeaderBack(w, 5);
    ValidIsHeaded(m);
    assert forall i :: 0 <= i < 5 ==> w[i] == w[..5][i] == m[..5][i] == m[i];
  }

  /** What a full part that ends with a byte other than 0xA9 stands for. */
  lemma FullPart(w: seq<byte>, m: seq<byte>, rest: seq<byte>, j: nat)
    requires Carrier(w, m, rest) && j < |w| && SYN !in w[..j + 1] && w[j] != EXT && Plain(w[..j + 1]) == |m| + 1
    ensures var v, t := w[..j + 1], w[j + 1..];
            && Part(m) <= Unstuff(v) && |Unstuff(v)| + |Unstuff(t)| == |Part(m)| + |rest|
            && (Unstuff(v) == Part(m) ==> Unstuff(t) == rest && Stuffed(v) && v == WirePart(m))
  {
    hide Unstuff, Stuffed, Stuff, Exts, ValidMaster, LogicalCrc;
    var v, t := w[..j + 1], w[j + 1..];
    assert w == v + t;
    UnstuffConcat(v, t);
    UnstuffShrinks(v);
    var u := Part(m) + rest;
    assert u == Unstuff(v) + Unstuff(t);
    assert Part(m) == u[..|m| + 1] == Unstuff(v)[..|m| + 1];
    if Unstuff(v) == Part(m) {
      assert Unstuff(t) == u[|m| + 1..] == rest;
      CompleteEscapes(v);
      RoundTripExact([], v);
    }
  }

  // ---------- Broadcast and master-master ----------

  /** A part judged too long is neither delivered nor reported. */
  lemma TooLongIsSilent(n: Node, p: Passive, m: seq<byte>, s: seq<byte>, reply: Buffer)
    requires ValidMaster(m) && KindOf(m) != Broadcast && Foreign(n, m) && n.state == PassiveReceiveMaster
    requires p.tel == CLEARED && p.master.Reduced() == s && Part(m) <= s && |s| > |m| + 1
    ensures MasterComplete(Start(n.(passive := p)), reply).outs == []
  {
    hide LogicalCrc, IsMaster, Unstuff;
    assert s[..|m| + 1] == Part(m);
    assert forall i :: 0 <= i < 5 ==> s[i] == s[..|m| + 1][i] == m[i];
    KindIsKnown(m);
  }

  lemma SilentEnd(n: Node, ins: seq<Input>)
    requires |ins| == 1 && Step(n, ins[0]).outs == []
    ensures Run(n, ins).outs == []
  {
    hide Step;
    assert ins == [ins[0]];
    RunOne(n, ins[0]);
  }

  lemma NothingIsEmpty(w: seq<byte>)
    requires Unstuff(w) == []
    ensures w == []
  {
    if w != [] {
      UnstuffHead(w);
    }
  }

  lemma OneAck(w: seq<byte>)
    requires Unstuff(w) == [ACK]
    ensures w == [ACK]
  {
    UnstuffHead(w);
    assert w[0] == ACK;
    assert Unstuff(w) == [ACK] + Unstuff(w[1..]);
    NothingIsEmpty(w[1..]);
  }

  lemma DeliveryNeedsStuffing(n: Node, m: seq<byte>, w: seq<byte>, ins: seq<Input>)
    requires Waiting(n) && Foreign(n, m) && Carrier(w, m, MasterTail(m)) && KindOf(m) != MasterSlave && Carries(ins, w)
    requires Run(n, ins).outs == [Delivered(PassiveMessage, KindOf(m), m, [])]
    ensures Stuffed(w)
  {
    hide Run, Step, Carrier, Headed, Foreign, Stuffed, Stuff, Unstuff, Exts, ValidMaster, KindOf, LogicalCrc, MasterComplete;
    var rest := MasterTail(m);
    CarrierHeader(w, m, rest);
    var j := FirstEventFromStart(n, w, ins);
    assert j < |w|;
    var i := ins[j];
    assert ins[j..][0] == i && i.b == w[j];
    var e := Step(RawMid(n, w, j), i);
    RunOpens(RawMid(n, w, j), ins[j..]);
    if w[j] == SYN {
      SynFails(n, w, j, i);
    } else {
      var v, t := w[..j + 1], w[j + 1..];
      assert v == w[..j] + [w[j]];
      assert SYN !in v;
      FullPart(w, m, rest, j);
      if Unstuff(v) == Part(m) {
        StuffedTail(w, v, t, m);
      } else {
        NothingIsEmpty(t);
        assert ins[j..] == [i];
        CompleteStep(n, w, j, i);
        CarrierIsValid(w, m, rest);
        TooLongIsSilent(n, RawMid(n, w, j + 1).passive, m, Unstuff(v), i.reply);
        SilentEnd(RawMid(n, w, j), ins[j..]);
      }
    }
  }

  lemma CarrierIsValid(w: seq<byte>, m: seq<byte>, rest: seq<byte>)
    requires Carrier(w, m, rest)
    ensures ValidMaster(m) && Unstuff(w) == Part(m) + rest
  {
  }

  /** The outputs of a run begin with those of its first step. */
  lemma RunOpens(n: Node, ins: seq<Input>)
    requires ins != []
    ensures Step(n, ins[0]).outs <= Run(n, ins).outs
  {
    hide Step;
  }

  lemma StuffedTail(w: seq<byte>, v: seq<byte>, t: seq<byte>, m: seq<byte>)
    requires w == v + t && v == WirePart(m) && Unstuff(t) == MasterTail(m)
    ensures Stuffed(w)
  {
    hide Unstuff, Stuffed, Stuff, KindOf, Part;
    if MasterTail(m) == [] {
      NothingIsEmpty(t);
    } else {
      OneAck(t);
    }
    StuffAcks();
    StuffConcat(Part(m), MasterTail(m));
    StuffIsStuffed(Part(m) + MasterTail(m));
  }

  /**
   * For wire bytes that parse as a foreign broadcast or master-master exchange, however they are stuffed:
   * streaming delivers that telegram, and nothing else, if and only if the bytes are properly stuffed.
   */
  lemma MasterStreamingExact(n: Node, m: seq<byte>, w: seq<byte>, ins: seq<Input>)
    requires Waiting(n) && Foreign(n, m) && ValidMaster(m) && KindOf(m) != MasterSlave
    requires Unstuff(w) == Part(m) + MasterTail(m) && Carries(ins, w)
    ensures Run(n, ins) == Outcome(n.(passive := IDLE_PASSIVE), [], [Delivered(PassiveMessage, KindOf(m), m, [])]) <==>
            Stuffed(w)
  {
    hide Run, ValidMaster, KindOf, Unstuff, Part, Stuff, Stuffed, Waiting, Foreign, MasterTail;
    if Stuffed(w) {
      RoundTripExact([], w);
      var e := Exchange(None, m, None, None);
      assert WellFormed(e) && Wire(e) == w && ForeignExchange(n, e) by { LoneMaster(m); }
      StreamingDelivers(n, e, ins);
    }
    if Run(n, ins).outs == [Delivered(PassiveMessage, KindOf(m), m, [])] {
      DeliveryNeedsStuffing(n, m, w, ins);
    }
  }

  lemma LoneMaster(m: seq<byte>)
    requires ValidMaster(m) && KindOf(m) != MasterSlave
    ensures WellFormed(Exchange(None, m, None, None))
    ensures Wire(Exchange(None, m, None, None)) == Stuff(Part(m) + MasterTail(m))
  {
    hide ValidMaster, KindOf, Stuff, Part;
    assert Logical(Exchange(None, m, None, None)) == Part(m) + MasterTail(m);
  }

  // ---------- Master-slave ----------

  /** Wire bytes that stand for the slave part s and whose every 0xA9 opens an escape pair. */
  predicate SlaveCarrier(y: seq<byte>, s: seq<byte>) {
    ValidSlave(s) && Unstuff(y) == Part(s) && Plain(y) == |s| + 1 && y != [] && y[|y| - 1] != EXT
  }

  lemma SlaveCarrierHead(y: seq<byte>, s: seq<byte>, k: nat)
    requires SlaveCarrier(y, s) && k < |y|
    ensures y[0] == s[0] <= MAX_DATA_BYTES && |s| == 1 + s[0]
    ensures Plain(y[..k + 1]) == |s| + 1 <==> k + 1 == |y|
    ensures Plain(y[..k + 1]) <= |s| + 1
  {
    hide Unstuff, Exts, LogicalCrc;
    UnstuffHead(y);
    assert Part(s)[0] == s[0];
    var last := |y| - 1;
    assert y == y[..last] + [y[last]];
    PlainSnoc(y[..last], y[last]);
    if k < last {
      assert y[..last] == y[..k + 1] + y[k + 1..last];
      PlainConcat(y[..k + 1], y[k + 1..last]);
      ExtsConcat([], y[k + 1..last]);
    } else {
      assert y[..k + 1] == y;
    }
  }

  /** The node after k bytes of a slave part. */
  function RawSlave(n: Node, y: seq<byte>, k: nat): Node
    requires k <= |y|
  {
    n.(passive := n.passive.(slave := Buffer(y[..k], k > 0), slaveDbx := if k == 0 then 0 else y[0] + Exts(y[..k])))
  }

  function RawSlaveDone(n: Node, y: seq<byte>, s: seq<byte>): Node
    requires y != []
  {
    n.(state := PassiveReceiveSlaveAcknowledge,
       passive := n.passive.(tel := CreateSlave(n.passive.tel, Part(s)), slave := Buffer(Part(s), false),
                             slaveDbx := y[0] + Exts(y)))
  }

  /** One more byte: the count stays right, and the test fires exactly at the end. */
  lemma RawSlavePush(n: Node, y: seq<byte>, s: seq<byte>, k: nat)
    requires AwaitsSlave(n) && SlaveCarrier(y, s) && k < |y|
    ensures k == 0 ==> y[k] <= MAX_DATA_BYTES
    ensures var p := PushSlave(RawSlave(n, y, k).passive, y[k]);
            p == RawSlave(n, y, k + 1).passive && (|p.slave.bytes| >= 2 + p.slaveDbx <==> k + 1 == |y|)
  {
    hide Unstuff, Exts, Part;
    SlaveCarrierHead(y, s, k);
    assert y[..k + 1] == y[..k] + [y[k]];
    ExtsSnoc(y[..k], y[k]);
    NoExts([]);
  }

  lemma RawSlaveStep(n: Node, y: seq<byte>, s: seq<byte>, k: nat, i: Input)
    requires AwaitsSlave(n) && SlaveCarrier(y, s) && k < |y| && i.b == y[k]
    ensures Step(RawSlave(n, y, k), i) ==
            if k + 1 < |y| then Start(RawSlave(n, y, k + 1)) else Start(RawSlaveDone(n, y, s))
    ensures SlaveTel(n.passive.tel, CreateSlave(n.passive.tel, Part(s)), s)
  {
    hide Unstuff, Exts, Part, CreateSlave, PushSlave, ValidSlave;
    RawSlavePush(n, y, s, k);
    SlaveAccepted(n.passive.tel, s);
    assert |y[..k]| == k;
    assert k + 1 == |y| ==> y[..k + 1] == y;
  }

  lemma {:induction false} RunRawSlave(n: Node, y: seq<byte>, s: seq<byte>, k: nat, ins: seq<Input>)
    requires AwaitsSlave(n) && SlaveCarrier(y, s) && k < |y| && Carries(ins, y[k..])
    ensures Run(RawSlave(n, y, k), ins) == Outcome(RawSlaveDone(n, y, s), [], [])
    decreases |ins|
  {
    hide Step, Run, RawSlave, RawSlaveDone, SlaveCarrier, Carries;
    CarriesNext(ins, y, k);
    CarriesLength(ins, y[k..]);
    RawSlaveStep(n, y, s, k, ins[0]);
    if k + 1 < |y| {
      RunQuietly(RawSlave(n, y, k), RawSlave(n, y, k + 1), ins);
      RunRawSlave(n, y, s, k + 1, ins[1..]);
    } else {
      RunQuietly(RawSlave(n, y, k), RawSlaveDone(n, y, s), ins);
      RunNothing(RawSlaveDone(n, y, s), ins[1..]);
    }
  }

  lemma DeliversRawSlave(n: Node, y: seq<byte>, s: seq<byte>, ins: seq<Input>)
    requires AwaitsSlave(n) && SlaveCarrier(y, s) && Carries(ins, y + [ACK])
    ensures Run(n, ins) == Outcome(n.(state := PassiveReceiveMaster, passive := IDLE_PASSIVE), [],
                                   [Delivered(PassiveMessage, MasterSlave, n.passive.tel.master, s)])
  {
    hide Run, SlaveCarrier, Part, LogicalCrc, CreateSlave, Exts, OnPassiveReceiveMaster;
    CarriesSplit(ins, y, [ACK]);
    var a, last := ins[..|y|], ins[|y|..];
    assert last == [last[0]];
    assert y[..0] == [] && y[0..] == y;
    assert y != [] by { CarrierNotEmpty(y, s); }
    RunRawSlave(n, y, s, 0, a);
    RawSlaveStep(n, y, s, 0, Input(y[0], Request.ObserveData, EMPTY));
    RunConcat(n, a, last);
    RunOne(RawSlaveDone(n, y, s), last[0]);
  }

  lemma CarrierNotEmpty(y: seq<byte>, s: seq<byte>)
    requires SlaveCarrier(y, s)
    ensures y != []
  {
  }

  /** The logical bytes of an exchange without refused attempts. */
  function Bare(m: seq<byte>, s: seq<byte>): seq<byte> {
    Part(m) + ([ACK] + (Part(s) + [ACK]))
  }

  /** Every wire form of the exchange has the two parts between its raw acknowledges. */
  lemma CutParts(w: seq<byte>, m: seq<byte>, s: seq<byte>) returns (x: seq<byte>, y: seq<byte>)
    requires Unstuff(w) == Bare(m, s)
    ensures w == (x + [ACK]) + (y + [ACK]) && Unstuff(x) == Part(m) && Unstuff(y) == Part(s)
    ensures x != [] && x[|x| - 1] != EXT && y != [] && y[|y| - 1] != EXT
  {
    hide Unstuff, LogicalCrc;
    var r, t, last;
    x, r := UnstuffSplit(w, Part(m), [ACK] + (Part(s) + [ACK]));
    t, r := UnstuffSplit(r, [ACK], Part(s) + [ACK]);
    OneAck(t);
    y, last := UnstuffSplit(r, Part(s), [ACK]);
    OneAck(last);
    UnstuffNothing([]);
    assert |Part(m)| > 0 && |Part(s)| > 0;
  }

  lemma PlainAtMostLogical(w: seq<byte>)
    ensures Plain(w) <= |Unstuff(w)|
  {
    UnstuffShrinks(w);
  }

  /** Delivery leaves no byte to waste: every 0xA9 opens an escape pair. */
  lemma DeliveryUsesEveryByte(n: Node, m: seq<byte>, s: seq<byte>, x: seq<byte>, y: seq<byte>, ins: seq<Input>)
    requires Inv(n) && Waiting(n) && ValidMaster(m) && ValidSlave(s) && Unstuff(x) == Part(m) && Unstuff(y) == Part(s)
    requires Carries(ins, (x + [ACK]) + (y + [ACK])) && Target(m, s) in Run(n, ins).outs
    ensures Plain(x) == |m| + 1 && Plain(y) == |s| + 1
  {
    hide Inv, Run, Unstuff, Exts, ValidMaster, ValidSlave, LogicalCrc, Target;
    NeedAtMostWhole(n, m, s);
    DeliveryIsPaid(n, ins, m, s);
    PlainsCarried(ins, (x + [ACK]) + (y + [ACK]));
    PlainConcat(x + [ACK], y + [ACK]);
    PlainSnoc(x, ACK);
    PlainSnoc(y, ACK);
    PlainAtMostLogical(x);
    PlainAtMostLogical(y);
  }

  /** A SYN inside the master part is reported. */
  lemma SynInMasterFails(n: Node, m: seq<byte>, w: seq<byte>, x: seq<byte>, rest: seq<byte>, ins: seq<Input>)
    requires Waiting(n) && Carrier(w, m, rest) && Carries(ins, w) && x <= w && SYN in x && Plain(x) == |m| + 1
    ensures exists o :: o in Run(n, ins).outs && o.Failed?
  {
    hide Run, Step, Exts, Carrier, Headed;
    var p :| 0 <= p < |x| && x[p] == SYN;
    CarrierHeader(w, m, rest);
    var j := FirstEventFromStart(n, w, ins);
    assert w[p] == x[p];
    InPrefix(w, p, j);
    assert x == w[..j + 1] + x[j + 1..];
    PlainConcat(w[..j + 1], x[j + 1..]);
    if w[j] != SYN {
      assert j < p && SYN == x[j + 1..][p - (j + 1)];
      SynIsPlain(x[j + 1..]);
      assert false;
    }
    assert ins[j..][0].b == w[j];
    SynFails(n, w, j, ins[j]);
    RunOpens(RawMid(n, w, j), ins[j..]);
    var o := Step(RawMid(n, w, j), ins[j]).outs[0];
    assert o == Run(n, ins).outs[0];
  }

  lemma InPrefix(w: seq<byte>, p: nat, j: nat)
    requires p < |w| && j <= |w|
    ensures p < j ==> w[p] in w[..j]
  {
    assert p < j ==> w[..j][p] == w[p];
  }

  lemma {:induction false} SynIsPlain(w: seq<byte>)
    requires SYN in w
    ensures Plain(w) > 0
  {
    hide Exts;
    var t := w[..|w| - 1];
    assert w == t + [w[|w| - 1]];
    PlainSnoc(t, w[|w| - 1]);
    if w[|w| - 1] == EXT {
      SynIsPlain(t);
    }
  }

  /** Proper parts are delivered, a bare SYN in the slave part included. */
  lemma ProperPartsDeliver(n: Node, m: seq<byte>, s: seq<byte>, x: seq<byte>, y: seq<byte>, ins: seq<Input>)
    requires Waiting(n) && Foreign(n, m) && ValidMaster(m) && KindOf(m) == MasterSlave && SlaveCarrier(y, s)
    requires Stuffed(x) && Unstuff(x) == Part(m) && Carries(ins, (x + [ACK]) + (y + [ACK]))
    ensures Run(n, ins) == Outcome(n.(passive := IDLE_PASSIVE), [], [Target(m, s)])
  {
    hide Run, Unstuff, Stuffed, Stuff, Part, ValidMaster, KindOf, Foreign, SlaveCarrier, Exts;
    RoundTripExact([], x);
    CarriesSplit(ins, x + [ACK], y + [ACK]);
    var a, b := ins[..|x| + 1], ins[|x| + 1..];
    RunAcknowledgedMaster(n, m, a);
    RunConcat(n, a, b);
    var q := MasterDone(n, m).(state := PassiveReceiveSlave);
    DoneKeeps(n, m);
    DeliversRawSlave(q, y, s, b);
  }

  /**
   * For wire bytes that parse as a foreign master-slave exchange without refused attempts, however they
   * are stuffed: with x and y the bytes of the two parts, streaming delivers that telegram, and nothing
   * else, if and only if x is properly stuffed and every 0xA9 of y opens an escape pair.
   */
  lemma MasterSlaveStreamingExact(n: Node, m: seq<byte>, s: seq<byte>, w: seq<byte>, ins: seq<Input>)
    returns (x: seq<byte>, y: seq<byte>)
    requires Inv(n) && Waiting(n) && Foreign(n, m) && ValidMaster(m) && KindOf(m) == MasterSlave && ValidSlave(s)
    requires Unstuff(w) == Bare(m, s) && Carries(ins, w)
    ensures w == (x + [ACK]) + (y + [ACK]) && Unstuff(x) == Part(m) && Unstuff(y) == Part(s)
    ensures Run(n, ins) == Outcome(n.(passive := IDLE_PASSIVE), [], [Delivered(PassiveMessage, MasterSlave, m, s)]) <==>
            Stuffed(x) && |y| - Exts(y) == |Unstuff(y)|
  {
    hide Inv, Run, Unstuff, Stuffed, Part, ValidMaster, ValidSlave, KindOf, Foreign, Waiting, Exts, Bare;
    x, y := CutParts(w, m, s);
    assert |Part(m)| == |m| + 1 && |Part(s)| == |s| + 1 by { PartLength(m); PartLength(s); }
    if Stuffed(x) && Plain(y) == |s| + 1 {
      ProperPartsDeliver(n, m, s, x, y, ins);
    }
    if Run(n, ins).outs == [Target(m, s)] {
      DeliveryUsesEveryByte(n, m, s, x, y, ins);
      if SYN in x {
        assert x <= w;
        assert Carrier(w, m, [ACK] + (Part(s) + [ACK])) by { BareIsCarrier(w, m, s); }
        SynInMasterFails(n, m, w, x, [ACK] + (Part(s) + [ACK]), ins);
        assert false;
      }
      CompleteEscapes(x);
    }
  }

  lemma BareIsCarrier(w: seq<byte>, m: seq<byte>, s: seq<byte>)
    requires ValidMaster(m) && Unstuff(w) == Bare(m, s)
    ensures Carrier(w, m, [ACK] + (Part(s) + [ACK]))
  {
  }

  /** Such bytes are the exchange for parse. */
  lemma BareIsParsed(m: seq<byte>, s: seq<byte>)
    requires ValidMaster(m) && KindOf(m) == MasterSlave && ValidSlave(s)
    ensures Read(Bare(m, s)) == Some(Exchange(None, m, None, Some(s)))
  {
    hide ValidMaster, ValidSlave, KindOf, Part, Read;
    var e := Exchange(None, m, None, Some(s));
    assert Logical(e) == Bare(m, s);
    ReadExact(Bare(m, s), e);
  }

  lemma {:induction false} UnstuffBare(w: seq<byte>, k: nat)
    requires k + 1 == |w| && EXT !in w[..k]
    ensures Unstuff(w) == w
  {
    if k > 0 {
      assert w[..k][0] == w[0];
      assert w[1..][..k - 1] == w[..k][1..];
      UnstuffBare(w[1..], k - 1);
    }
  }

  /** A concrete case: a broadcast with a bare SYN as its data byte, which parse accepts, is not delivered. */
  lemma BareSynIsNotDelivered(n: Node, ins: seq<Input>) returns (m: seq<byte>)
    requires Waiting(n) && n.source != BROADCAST && n.target != BROADCAST
    ensures Read(Unstuff(Part(m))) == Some(Exchange(None, m, None, None))
    ensures Carries(ins, Part(m)) ==> Run(n, ins).outs != [Delivered(PassiveMessage, Broadcast, m, [])]
  {
    hide LogicalCrc, Run;
    m := [0x10, BROADCAST, 0x07, 0x00, 0x01, SYN];
    var w := Part(m);
    assert w[..6] == m;
    UnstuffBare(w, 6);
    assert ValidMaster(m) && KindOf(m) == Broadcast;
    var e := Exchange(None, m, None, None);
    assert Logical(e) == w;
    ReadExact(w, e);
    assert w[5] == SYN && w[5] in w;
    if Stuffed(w) {
      StuffedHasNoSyn(w);
    } else if Carries(ins, w) {
      if Run(n, ins).outs == [Delivered(PassiveMessage, Broadcast, m, [])] {
        DeliveryNeedsStuffing(n, m, w, ins);
      }
    }
  }
}
