/**
 * A master part received byte by byte whatever its stuffing and its CRC: buffered silently up to a SYN or
 * to the byte other than 0xA9 that makes it full.
 */
module RawReception {
  import opened Bytes
  import opened Stuffing
  import opened Crc
  import opened Telegram
  import opened Handler
  import opened HandlerInvariant
  import opened HandlerSteps
  import opened Reception
  import opened Feed
  import opened Effort

  /** The first five bytes may begin a master part. */
  predicate Headed(w: seq<byte>) {
    |w| >= 5 && forall k :: 0 <= k < 5 ==> !Implausible(k, w[k])
  }

  lemma ValidIsHeaded(m: seq<byte>)
    requires ValidMaster(m)
    ensures Headed(m)
  {
  }

  lemma HeadedIsPlain(w: seq<byte>)
    requires Headed(w)
    ensures EXT !in w[..5] && SYN !in w[..5] && w[4] <= MAX_DATA_BYTES && IsMaster(w[0])
  {
    MasterNeedsNoEscape(w[0]);
    forall k | 0 <= k < 5
      ensures w[..5][k] != EXT && w[..5][k] != SYN
    {
      assert !Implausible(k, w[k]);
    }
    assert !Implausible(4, w[4]) && !Implausible(0, w[0]);
  }

  /** The node after k bytes while the length test has not fired. */
  function RawMid(n: Node, w: seq<byte>, k: nat): Node
    requires k <= |w| && |w| >= 5
  {
    n.(passive := n.passive.(master := Buffer(w[..k], k > 0), masterDbx := if k < 5 then 0 else w[4] + Exts(w[..k])))
  }

  lemma RawPush(n: Node, w: seq<byte>, k: nat)
    requires Headed(w) && k < |w|
    ensures !Implausible(k, w[k]) && PushMaster(RawMid(n, w, k).passive, w[k]) == RawMid(n, w, k + 1).passive
  {
    hide IsMaster, Exts;
    HeadedIsPlain(w);
    assert w[..k + 1] == w[..k] + [w[k]];
    ExtsSnoc(w[..k], w[k]);
    if k < 5 {
      assert w[..5][k] == w[k] && w[k] in w[..5];
      assert w[..k] == w[..5][..k];
      NoExts(w[..k]);
    }
  }

  /** The test fires when the bytes other than 0xA9 are as many as the header, the data and the CRC. */
  predicate Full(w: seq<byte>, k: nat)
    requires k <= |w| && |w| >= 5
  {
    Plain(w[..k]) - 6 >= w[4]
  }

  lemma FullIsFired(n: Node, w: seq<byte>, k: nat)
    requires k <= |w| && |w| >= 5
    ensures Full(w, k) <==> k >= 6 + RawMid(n, w, k).passive.masterDbx && k >= 5
  {
    hide Exts;
    ExtsConcat([], w[..k]);
  }

  lemma SynFails(n: Node, w: seq<byte>, k: nat, i: Input)
    requires n.state == PassiveReceiveMaster && |w| >= 5 && 0 < k < |w| && i.b == SYN
    ensures var e := Step(RawMid(n, w, k), i); |e.outs| > 0 && e.outs[0].Failed?
  {
    hide Exts, MasterComplete, IsMaster;
  }

  lemma QuietStep(n: Node, w: seq<byte>, k: nat, i: Input)
    requires n.state == PassiveReceiveMaster && Headed(w) && k < |w| && i.b == w[k] != SYN && !Full(w, k + 1)
    ensures Step(RawMid(n, w, k), i) == Start(RawMid(n, w, k + 1))
  {
    hide Exts, MasterComplete, IsMaster, PushMaster, Implausible, Full;
    RawPush(n, w, k);
    FullIsFired(n, w, k + 1);
  }

  lemma CompleteStep(n: Node, w: seq<byte>, k: nat, i: Input)
    requires n.state == PassiveReceiveMaster && Headed(w) && k < |w| && i.b == w[k] != SYN && Full(w, k + 1)
    ensures Step(RawMid(n, w, k), i) == MasterComplete(Start(RawMid(n, w, k + 1)), i.reply)
  {
    hide Exts, MasterComplete, IsMaster, PushMaster, Implausible, Full;
    RawPush(n, w, k);
    FullIsFired(n, w, k + 1);
  }

  /**
   * The node buffers silently up to some byte j: a SYN, or the byte other than 0xA9 that makes the part
   * full, unless the bytes end before.
   */
  lemma {:induction false} FirstEvent(n: Node, w: seq<byte>, k: nat, ins: seq<Input>) returns (j: nat)
    requires n.state == PassiveReceiveMaster && Headed(w) && |w| >= 5 && k <= |w| && Carries(ins, w[k..])
    requires SYN !in w[..k] && !Full(w, k)
    ensures k <= j <= |w| && SYN !in w[..j] && !Full(w, j)
    ensures j < |w| ==> Run(RawMid(n, w, k), ins) == Run(RawMid(n, w, j), ins[j - k..])
    ensures j < |w| && w[j] != SYN ==> Plain(w[..j + 1]) == 6 + w[4] && w[j] != EXT
    ensures j == |w| ==> Run(RawMid(n, w, k), ins) == Outcome(RawMid(n, w, j), [], [])
    decreases |ins|
  {
    hide Step, Run, Headed, Exts, RawMid, Carries;
    j := k;
    if k == |w| {
      assert ins == [] by { CarriesNothing(ins, w[k..]); }
      RunNothing(RawMid(n, w, k), ins);
    } else {
      CarriesNext(ins, w, k);
      DropDrop(ins, 1);
      PlainSnoc(w[..k], w[k]);
      if w[k] != SYN && !Full(w, k + 1) {
        QuietStep(n, w, k, ins[0]);
        RunQuietly(RawMid(n, w, k), RawMid(n, w, k + 1), ins);
        j := FirstEvent(n, w, k + 1, ins[1..]);
        assert |ins| == |w| - k by { CarriesLength(ins, w[k..]); }
        DropDrop(ins, j - k);
      }
    }
  }

  lemma FirstEventFromStart(n: Node, w: seq<byte>, ins: seq<Input>) returns (j: nat)
    requires Waiting(n) && Headed(w) && |w| >= 5 && Carries(ins, w)
    ensures 5 <= j <= |w| && SYN !in w[..j] && !Full(w, j)
    ensures j < |w| ==> Run(n, ins) == Run(RawMid(n, w, j), ins[j..])
    ensures j < |w| && w[j] != SYN ==> Plain(w[..j + 1]) == 6 + w[4] && w[j] != EXT
    ensures j == |w| ==> Run(n, ins).outs == []
  {
    hide Run, Headed, Exts;
    HeadedIsPlain(w);
    assert w[..0] == [] && w[0..] == w;
    NoExts([]);
    j := FirstEvent(n, w, 0, ins);
    assert RawMid(n, w, 0) == n;
    HeaderIsNotFull(w, j);
  }

  lemma HeaderIsNotFull(w: seq<byte>, j: nat)
    requires Headed(w) && |w| >= 5 && j <= |w|
    ensures j < |w| && j < 5 ==> w[j] != SYN && Plain(w[..j + 1]) != 6 + w[4]
  {
    hide Headed, Exts;
    HeadedIsPlain(w);
    if j < |w| && j < 5 {
      assert w[j] == w[..5][j] && w[j] in w[..5];
      ExtsConcat([], w[..j + 1]);
    }
  }

  /** Wire bytes that make one complete master part, good or bad. */
  predicate Completed(w: seq<byte>) {
    Headed(w) && |w| >= 5 && SYN !in w && w[|w| - 1] != EXT && Plain(w) == 6 + w[4]
  }

  lemma CompletedPrefix(w: seq<byte>, j: nat)
    requires Completed(w) && j < |w|
    ensures w[j] != SYN && (Plain(w[..j + 1]) == 6 + w[4] ==> j + 1 == |w|) && Plain(w[..|w| - 1]) < 6 + w[4]
  {
    hide Headed, Exts;
    assert w == w[..|w| - 1] + [w[|w| - 1]];
    PlainSnoc(w[..|w| - 1], w[|w| - 1]);
    if j + 1 < |w| {
      assert w[..|w| - 1] == w[..j + 1] + w[j + 1..|w| - 1];
      PlainConcat(w[..j + 1], w[j + 1..|w| - 1]);
      ExtsConcat([], w[j + 1..|w| - 1]);
    }
  }

  /** The last byte, and no earlier one, has the part judged. */
  lemma CompletedIsJudged(n: Node, w: seq<byte>, ins: seq<Input>)
    requires Waiting(n) && Completed(w) && Carries(ins, w)
    ensures Run(n, ins) == OutcomeOf(MasterComplete(Start(RawMid(n, w, |w|)), ins[|w| - 1].reply))
  {
    hide Run, Step, Headed, Exts, MasterComplete, RawMid, Waiting;
    var j := FirstEventFromStart(n, w, ins);
    assert w[..|w|] == w;
    assert j < |w|;
    CompletedPrefix(w, j);
    assert n.state == PassiveReceiveMaster by { WaitingListens(n); }
    assert ins[j..] == [ins[j]];
    CompleteStep(n, w, j, ins[j]);
    RunOne(RawMid(n, w, j), ins[j]);
  }

  lemma WaitingListens(n: Node)
    requires Waiting(n)
    ensures n.state == PassiveReceiveMaster
  {
  }
}
