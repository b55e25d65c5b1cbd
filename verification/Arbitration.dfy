/** Several arbitration automata on one wired-AND line: the election they perform. */
module Arbitration {
  import opened Bits
  import opened Bytes
  import opened Request

  /** The line is active low: bits of simultaneous writers are ANDed; an idle line reads 0xFF. */
  function WiredAnd(a: byte, b: byte): byte {
    ValueOf(And(BitsOf(a), BitsOf(b)))
  }

  lemma AllOnes(b: byte)
    ensures WiredAnd(b, 0xFF) == b
  {
    assert BitsOf(0xFF) == Bits8(true, true, true, true, true, true, true, true);
    hide ValueOf;
    assert And(BitsOf(b), BitsOf(0xFF)) == BitsOf(b) by { hide BitsOf; }
    ValueOfBitsOf(b);
  }

  function Line(writers: seq<byte>): byte {
    if writers == [] then 0xFF else WiredAnd(writers[0], Line(writers[1..]))
  }

  function Min(x: int, y: int): int {
    if x <= y then x else y
  }

  /** The bits of a master address: each nibble is a run of ones from the bottom. */
  function Runs(hi: int, lo: int): Bits8 {
    Bits8(hi == 15, hi >= 7, hi >= 3, hi >= 1, lo == 15, lo >= 7, lo >= 3, lo >= 1)
  }

  lemma MasterBits(b: byte)
    requires IsMaster(b)
    ensures BitsOf(b) == Runs(b / 16, b % 16)
  {
    var hi, lo := b / 16, b % 16;
    assert b == 16 * hi + lo;
    assert (hi == 15) == (b >= 128);
    var x6 := b - Weight(b >= 128, 128);
    assert (hi >= 7) == (x6 >= 64);
  }

  lemma RunsValue(hi: int, lo: int)
    requires IsMasterNibble(hi) && IsMasterNibble(lo)
    ensures ValueOf(Runs(hi, lo)) == 16 * hi + lo
  {
  }

  lemma RunsAnd(hi: int, lo: int, hi': int, lo': int)
    requires IsMasterNibble(hi) && IsMasterNibble(lo) && IsMasterNibble(hi') && IsMasterNibble(lo')
    ensures And(Runs(hi, lo), Runs(hi', lo')) == Runs(Min(hi, hi'), Min(lo, lo'))
  {
  }

  /** On master addresses the wired AND takes the minimum of each nibble, so it reads as a master. */
  lemma WiredAndOfMasters(a: byte, b: byte)
    requires IsMaster(a) && IsMaster(b)
    ensures var w := WiredAnd(a, b);
            IsMaster(w) && w / 16 == Min(a / 16, b / 16) && w % 16 == Min(a % 16, b % 16)
  {
    hide BitsOf, ValueOf, And, Runs;
    MasterBits(a);
    MasterBits(b);
    RunsAnd(a / 16, a % 16, b / 16, b % 16);
    RunsValue(Min(a / 16, b / 16), Min(a % 16, b % 16));
  }

  predicate Masters(s: seq<byte>) {
    forall i :: 0 <= i < |s| ==> IsMaster(s[i])
  }

  lemma LineOfMasters(s: seq<byte>)
    requires Masters(s)
    ensures IsMaster(Line(s))
    ensures forall i :: 0 <= i < |s| ==> Line(s) / 16 <= s[i] / 16 && Line(s) % 16 <= s[i] % 16
    ensures s != [] ==> exists i :: 0 <= i < |s| && s[i] / 16 == Line(s) / 16
    ensures s != [] ==> exists i :: 0 <= i < |s| && s[i] % 16 == Line(s) % 16
  {
    hide Line, IsMaster;
    LineBelow(s);
    if s != [] {
      LineAttained(s);
    }
  }

  lemma {:induction false} LineBelow(s: seq<byte>)
    requires Masters(s)
    ensures IsMaster(Line(s))
    ensures forall i :: 0 <= i < |s| ==> Line(s) / 16 <= s[i] / 16 && Line(s) % 16 <= s[i] % 16
  {
    if s != [] {
      var t := s[1..];
      LineBelow(t);
      WiredAndOfMasters(s[0], Line(t));
      hide WiredAnd, IsMaster, Line;
      LineNibbles(s);
      assert forall i :: 0 < i < |s| ==> s[i] == t[i - 1];
    }
  }

  lemma {:induction false} LineAttained(s: seq<byte>)
    requires Masters(s) && s != []
    ensures exists i :: 0 <= i < |s| && s[i] / 16 == Line(s) / 16
    ensures exists i :: 0 <= i < |s| && s[i] % 16 == Line(s) % 16
  {
    hide WiredAnd, IsMaster, Line;
    var t := s[1..];
    LineBelow(t);
    LineNibbles(s);
    if t == [] {
      assert s[0] / 16 == Line(s) / 16 && s[0] % 16 == Line(s) % 16;
    } else {
      LineAttained(t);
      var i :| 0 <= i < |t| && t[i] / 16 == Line(t) / 16;
      var j :| 0 <= j < |t| && t[j] % 16 == Line(t) % 16;
      assert s[i + 1] == t[i] && s[j + 1] == t[j];
      assert s[0] / 16 == Line(s) / 16 || s[i + 1] / 16 == Line(s) / 16;
      assert s[0] % 16 == Line(s) % 16 || s[j + 1] % 16 == Line(s) % 16;
    }
  }

  lemma LineNibbles(s: seq<byte>)
    requires s != [] && IsMaster(s[0]) && IsMaster(Line(s[1..]))
    ensures Line(s) / 16 == Min(s[0] / 16, Line(s[1..]) / 16)
    ensures Line(s) % 16 == Min(s[0] % 16, Line(s[1..]) % 16)
    ensures s[1..] == [] ==> Line(s) / 16 == s[0] / 16 && Line(s) % 16 == s[0] % 16
  {
    hide WiredAnd;
    WiredAndOfMasters(s[0], Line(s[1..]));
  }

  // ---------- Rounds ----------

  /** Every node reads the same byte. */
  function Round(nodes: seq<Arbiter>, b: byte): seq<Arbiter> {
    seq(|nodes|, i requires 0 <= i < |nodes| => Step(nodes[i], b))
  }

  predicate Contends(a: Arbiter) {
    a.state == First || a.state == Second
  }

  /** The addresses written after a SYN: those of the nodes that are contending. */
  function Driving(nodes: seq<Arbiter>): seq<byte> {
    if nodes == [] then []
    else (if Contends(nodes[0]) then [nodes[0].address] else []) + Driving(nodes[1..])
  }

  lemma {:induction false} DrivingMembers(nodes: seq<Arbiter>)
    requires forall i :: 0 <= i < |nodes| ==> IsMaster(nodes[i].address)
    ensures Masters(Driving(nodes))
    ensures forall i :: 0 <= i < |nodes| && Contends(nodes[i]) ==> nodes[i].address in Driving(nodes)
    ensures forall b :: b in Driving(nodes) ==>
              exists i :: 0 <= i < |nodes| && Contends(nodes[i]) && nodes[i].address == b
  {
    if nodes != [] {
      hide IsMaster;
      var t := nodes[1..];
      DrivingMembers(t);
      assert forall i :: 0 < i < |nodes| ==> nodes[i] == t[i - 1];
      forall b | b in Driving(nodes)
        ensures exists i :: 0 <= i < |nodes| && Contends(nodes[i]) && nodes[i].address == b
      {
        if b in Driving(t) {
          var i :| 0 <= i < |t| && Contends(t[i]) && t[i].address == b;
          assert Contends(nodes[i + 1]) && nodes[i + 1].address == b;
        } else {
          assert Contends(nodes[0]) && nodes[0].address == b;
        }
      }
    }
  }

  /** What the line shows when some nodes contend. */
  lemma LineOfContenders(nodes: seq<Arbiter>) returns (k: nat, l: nat)
    requires forall i :: 0 <= i < |nodes| ==> IsMaster(nodes[i].address)
    requires exists i :: 0 <= i < |nodes| && Contends(nodes[i])
    ensures var w := Line(Driving(nodes));
            && IsMaster(w)
            && (forall i :: 0 <= i < |nodes| && Contends(nodes[i]) ==>
                  w / 16 <= nodes[i].address / 16 && w % 16 <= nodes[i].address % 16)
            && k < |nodes| && Contends(nodes[k]) && nodes[k].address / 16 == w / 16
            && l < |nodes| && Contends(nodes[l]) && nodes[l].address % 16 == w % 16
  {
    hide IsMaster, Line, Driving, Contends;
    var d := Driving(nodes);
    DrivingMembers(nodes);
    LineOfMasters(d);
    assert d != [];
    var i :| 0 <= i < |d| && d[i] / 16 == Line(d) / 16;
    var j :| 0 <= j < |d| && d[j] % 16 == Line(d) % 16;
    assert d[i] in d && d[j] in d;
    k :| 0 <= k < |nodes| && Contends(nodes[k]) && nodes[k].address == d[i];
    l :| 0 <= l < |nodes| && Contends(nodes[l]) && nodes[l].address == d[j];
  }

  // ---------- The election ----------

  /** Nodes that have all just written their distinct master addresses after the same SYN. */
  ghost predicate Contest(nodes: seq<Arbiter>) {
    && nodes != []
    && (forall i :: 0 <= i < |nodes| ==> nodes[i].state == First && IsMaster(nodes[i].address))
    && (forall i, j :: 0 <= i < j < |nodes| ==> nodes[i].address != nodes[j].address)
  }

  /** Low nibble (priority class) first, then high nibble. */
  ghost predicate IsFirstInRank(nodes: seq<Arbiter>, i: nat) {
    i < |nodes| && forall j :: 0 <= j < |nodes| ==>
      var a, b := nodes[i].address, nodes[j].address;
      a % 16 < b % 16 || (a % 16 == b % 16 && a / 16 <= b / 16)
  }

  /** Exactly node i got the winning result. */
  predicate OnlyWinner(nodes: seq<Arbiter>, i: nat, won: RequestResult) {
    i < |nodes| && forall j :: 0 <= j < |nodes| ==> (nodes[j].result == won <==> j == i)
  }

  predicate NoError(a: Arbiter) {
    a.result != FirstError && a.result != RetryError && a.result != SecondError
  }

  predicate NoErrors(nodes: seq<Arbiter>) {
    forall j :: 0 <= j < |nodes| ==> NoError(nodes[j])
  }

  lemma SameNibbles(a: byte, b: byte)
    requires a / 16 == b / 16 && a % 16 == b % 16
    ensures a == b
  {
  }

  lemma MasterIsNotSyn(b: byte)
    requires IsMaster(b)
    ensures b != SYN
  {
  }

  /** Round one: the line reads the nibble-wise minimum; the node that owns it, if any, wins. */
  lemma FirstRound(nodes: seq<Arbiter>) returns (i: nat, owned: bool)
    requires Contest(nodes)
    ensures var w := Line(Driving(nodes));
            var one := Round(nodes, w);
            && NoErrors(one) && |one| == |nodes|
            && (owned ==> OnlyWinner(one, i, FirstWon) && IsFirstInRank(nodes, i))
            && (!owned ==>
                  && (forall j :: 0 <= j < |nodes| ==> one[j].result != FirstWon)
                  && (forall j :: 0 <= j < |nodes| ==> one[j].address == nodes[j].address)
                  && (forall j :: 0 <= j < |nodes| ==>
                        one[j].state == if nodes[j].address % 16 == w % 16 then Retry else Observe)
                  && (forall j :: 0 <= j < |nodes| ==> w % 16 <= nodes[j].address % 16)
                  && i < |nodes| && nodes[i].address % 16 == w % 16)
  {
    hide Line, Driving, IsMaster;
    assert Contends(nodes[0]);
    var w := Line(Driving(nodes));
    var k, l := LineOfContenders(nodes);
    MasterIsNotSyn(w);
    var one := Round(nodes, w);
    forall j | 0 <= j < |nodes|
      ensures Contends(nodes[j]) && one[j].address == nodes[j].address
      ensures one[j].result ==
              if nodes[j].address == w then FirstWon else if nodes[j].address % 16 == w % 16 then FirstRetry else FirstLost
      ensures one[j].state == if one[j].result == FirstRetry then Retry else Observe
    {
      assert one[j] == OnFirst(nodes[j], w);
    }
    hide Round, Contends;
    if j :| 0 <= j < |nodes| && nodes[j].address == w {
      i, owned := j, true;
    } else {
      i, owned := l, false;
    }
  }

  /** After a round without owner, the next SYN leaves exactly the priority class of the line contending. */
  lemma RetryRound(one: seq<Arbiter>, lo: int)
    requires forall j :: 0 <= j < |one| ==> one[j].state == if one[j].address % 16 == lo then Retry else Observe
    ensures var two := Round(one, SYN);
            && NoErrors(two) && |two| == |one|
            && (forall j :: 0 <= j < |one| ==> two[j].address == one[j].address)
            && (forall j :: 0 <= j < |one| ==> two[j].state == if one[j].address % 16 == lo then Second else Observe)
  {
    assert forall j :: 0 <= j < |one| ==> Round(one, SYN)[j] == Step(one[j], SYN);
  }

  lemma LastRound(two: seq<Arbiter>, w: byte, lo: int)
    requires IsMaster(w)
    requires forall j :: 0 <= j < |two| ==> two[j].state == if two[j].address % 16 == lo then Second else Observe
    ensures var three := Round(two, w);
            && |three| == |two|
            && (forall j :: 0 <= j < |two| ==>
                  three[j].result ==
                  if two[j].address % 16 != lo then ObserveData else if two[j].address == w then SecondWon else SecondLost)
  {
    hide IsMaster;
    MasterIsNotSyn(w);
    assert forall j :: 0 <= j < |two| ==> Round(two, w)[j] == Step(two[j], w);
  }

  /** Round two: the least high nibble of the class wins. */
  lemma SecondRound(nodes: seq<Arbiter>, one: seq<Arbiter>, lo: int, some: nat) returns (i: nat)
    requires Contest(nodes) && |one| == |nodes|
    requires forall j :: 0 <= j < |nodes| ==> one[j].address == nodes[j].address && lo <= nodes[j].address % 16
    requires forall j :: 0 <= j < |nodes| ==> one[j].state == if nodes[j].address % 16 == lo then Retry else Observe
    requires some < |nodes| && nodes[some].address % 16 == lo
    ensures var two := Round(one, SYN);
            var three := Round(two, Line(Driving(two)));
            NoErrors(two) && NoErrors(three) && OnlyWinner(three, i, SecondWon) && IsFirstInRank(nodes, i)
  {
    hide Line, Driving, IsMaster, Round;
    RetryRound(one, lo);
    var two := Round(one, SYN);
    assert Contends(two[some]);
    var w := Line(Driving(two));
    var k, l := LineOfContenders(two);
    LastRound(two, w, lo);
    SameNibbles(nodes[k].address, w);
    i := k;
  }

  /**
   * Any non-empty set of contenders elects exactly one winner within two rounds, the first in rank,
   * and nobody sees an arbitration error before that win.
   */
  lemma ElectsExactlyOne(nodes: seq<Arbiter>)
    requires Contest(nodes)
    ensures var one := Round(nodes, Line(Driving(nodes)));
            var two := Round(one, SYN);
            var three := Round(two, Line(Driving(two)));
            && NoErrors(one)
            && (exists i ::
                  && IsFirstInRank(nodes, i)
                  && (|| OnlyWinner(one, i, FirstWon)
                      || (&& (forall j :: 0 <= j < |one| ==> one[j].result != FirstWon)
                          && NoErrors(two) && NoErrors(three) && OnlyWinner(three, i, SecondWon))))
  {
    hide Line, Driving, Round, Contest, IsFirstInRank, OnlyWinner, NoErrors;
    var i, owned := FirstRound(nodes);
    var one := Round(nodes, Line(Driving(nodes)));
    if !owned {
      i := SecondRound(nodes, one, Line(Driving(nodes)) % 16, i);
    }
    assert IsFirstInRank(nodes, i);
  }
}
