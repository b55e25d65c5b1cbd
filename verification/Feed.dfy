/** Feeding a node a sequence of bytes, collecting what it writes and reports. */
module Feed {
  import opened Bytes
  import opened Handler

  datatype Outcome = Outcome(node: Node, writes: seq<byte>, outs: seq<Output>)

  function Written(e: Effect): seq<byte> {
    if e.write.Some? then [e.write.value] else []
  }

  function OutcomeOf(e: Effect): Outcome {
    Outcome(e.node, Written(e), e.outs)
  }

  function Then(x: Outcome, y: Outcome): Outcome {
    Outcome(y.node, x.writes + y.writes, x.outs + y.outs)
  }

  function Run(n: Node, ins: seq<Input>): Outcome
    decreases |ins|
  {
    if ins == [] then Outcome(n, [], [])
    else
      var x := OutcomeOf(Step(n, ins[0]));
      Then(x, Run(x.node, ins[1..]))
  }

  /** The inputs bring exactly these bytes, with any arbitration results and replies. */
  predicate Carries(ins: seq<Input>, w: seq<byte>) {
    |ins| == |w| && forall k :: 0 <= k < |w| ==> ins[k].b == w[k]
  }

  lemma {:induction false} RunConcat(n: Node, a: seq<Input>, b: seq<Input>)
    ensures Run(n, a + b) == Then(Run(n, a), Run(Run(n, a).node, b))
    decreases |a|
  {
    hide Step;
    if a == [] {
      assert a + b == b;
    } else {
      assert (a + b)[1..] == a[1..] + b;
      RunConcat(Step(n, a[0]).node, a[1..], b);
    }
  }

  lemma RunOne(n: Node, i: Input)
    ensures Run(n, [i]) == OutcomeOf(Step(n, i))
  {
    hide Step;
    assert Run(OutcomeOf(Step(n, i)).node, []) == Outcome(OutcomeOf(Step(n, i)).node, [], []);
  }

  lemma CarriesSplit(ins: seq<Input>, a: seq<byte>, b: seq<byte>)
    requires Carries(ins, a + b)
    ensures ins == ins[..|a|] + ins[|a|..] && Carries(ins[..|a|], a) && Carries(ins[|a|..], b)
  {
    assert forall k :: 0 <= k < |b| ==> ins[|a|..][k].b == (a + b)[|a| + k];
    assert forall k :: 0 <= k < |a| ==> (a + b)[k] == a[k];
  }

  lemma RunNothing(n: Node, ins: seq<Input>)
    requires ins == []
    ensures Run(n, ins) == Outcome(n, [], [])
  {
  }

  lemma RunQuietly(n: Node, next: Node, ins: seq<Input>)
    requires ins != [] && Step(n, ins[0]) == Effect(next, None, [])
    ensures Run(n, ins) == Run(next, ins[1..])
  {
    hide Step;
  }

  /** The first of the inputs that bring the bytes from k on, and the rest of them. */
  lemma CarriesNext(ins: seq<Input>, w: seq<byte>, k: nat)
    requires k < |w| && Carries(ins, w[k..])
    ensures ins != [] && ins[0].b == w[k] && Carries(ins[1..], w[k + 1..]) && w[..k + 1] == w[..k] + [w[k]]
  {
    assert ins[0].b == w[k..][0];
    assert forall j :: 0 <= j < |w[k + 1..]| ==> ins[1..][j].b == w[k..][j + 1];
  }

  lemma DropDrop(ins: seq<Input>, k: nat)
    requires 1 <= k <= |ins|
    ensures ins[1..][k - 1..] == ins[k..] && ins[0..] == ins
  {
  }

  lemma RunFirst(n: Node, ins: seq<Input>)
    requires ins != []
    ensures Run(n, ins) == Then(OutcomeOf(Step(n, ins[0])), Run(Step(n, ins[0]).node, ins[1..]))
  {
    hide Step;
  }

  lemma ThenWrites(n: Node, a: seq<byte>, b: seq<byte>, x: Outcome)
    ensures Then(Outcome(n, a, []), Then(Outcome(n, b, []), x)) == Then(Outcome(n, a + b, []), x)
  {
    assert a + (b + x.writes) == (a + b) + x.writes;
  }

  lemma CarriesLength(ins: seq<Input>, w: seq<byte>)
    requires Carries(ins, w)
    ensures |ins| == |w|
  {
  }

  lemma CarriesNothing(ins: seq<Input>, w: seq<byte>)
    requires Carries(ins, w) && w == []
    ensures ins == []
  {
  }
}
