/** The scheduler's ordering and the binary heap that push_heap and pop_heap keep. */
module Heap {
  import opened Bytes

  datatype Item = Item(priority: byte, due: int, session: nat, poll: nat, attempts: nat, message: seq<byte>)

  /** Two milliseconds in clock ticks (nanoseconds). */
  const JITTER := 2_000_000

  /** Division of a duration truncates toward zero. */
  function Bucket(due: int): int {
    if due >= 0 then due / JITTER else -((-due) / JITTER)
  }

  /** Compare: lhs comes after rhs. */
  predicate After(lhs: Item, rhs: Item) {
    if Bucket(lhs.due) != Bucket(rhs.due) then Bucket(lhs.due) > Bucket(rhs.due)
    else if lhs.priority != rhs.priority then lhs.priority < rhs.priority
    else lhs.session > rhs.session
  }

  /** a is served no later than b. */
  predicate Leads(a: Item, b: Item) {
    !After(a, b)
  }

  /** Compare is a strict weak ordering, and total on distinct sessions. */
  lemma CompareIsOrder(a: Item, b: Item, c: Item)
    ensures Leads(a, a) && (Leads(a, b) || Leads(b, a))
    ensures Leads(a, b) && Leads(b, c) ==> Leads(a, c)
    ensures Leads(a, b) && Leads(b, a) ==> a.session == b.session
  {
    hide Bucket;
  }

  /** The windows of two milliseconds; the one around zero is twice as wide. */
  predicate InWindow(due: int, k: int) {
    if k > 0 then k * 2_000_000 <= due < (k + 1) * 2_000_000
    else if k == 0 then -2_000_000 < due < 2_000_000
    else (k - 1) * 2_000_000 < due <= k * 2_000_000
  }

  lemma WindowOf(due: int, k: int)
    ensures InWindow(due, k) <==> k == Bucket(due)
  {
    if due >= 0 {
      assert due == 2_000_000 * (due / JITTER) + due % JITTER;
    } else {
      assert -due == 2_000_000 * ((-due) / JITTER) + (-due) % JITTER;
    }
  }

  /** The order promised: earlier window, then higher priority, then older session. */
  ghost predicate Precedes(x: Item, y: Item) {
    exists k, l ::
      && InWindow(x.due, k) && InWindow(y.due, l)
      && (k < l || (k == l && (x.priority > y.priority || (x.priority == y.priority && x.session <= y.session))))
  }

  lemma LeadsIsPrecedes(x: Item, y: Item)
    ensures Leads(x, y) <==> Precedes(x, y)
  {
    hide InWindow, Bucket;
    var k, l := Bucket(x.due), Bucket(y.due);
    WindowOf(x.due, k);
    WindowOf(y.due, l);
    forall i, j | InWindow(x.due, i) && InWindow(y.due, j)
      ensures i == k && j == l
    {
      WindowOf(x.due, i);
      WindowOf(y.due, j);
    }
  }

  function Parent(i: int): int
    requires i >= 1
  {
    (i - 1) / 2
  }

  predicate IsHeap(s: seq<Item>) {
    forall i :: 1 <= i < |s| ==> Leads(s[Parent(i)], s[i])
  }

  /** Nothing in a heap is served before its first element. */
  lemma {:induction false} FirstLeads(s: seq<Item>, i: nat)
    requires IsHeap(s) && i < |s|
    ensures Leads(s[0], s[i])
  {
    hide Leads;
    if i == 0 {
      CompareIsOrder(s[0], s[0], s[0]);
    } else {
      FirstLeads(s, Parent(i));
      CompareIsOrder(s[0], s[Parent(i)], s[i]);
    }
  }

  function Swap(s: seq<Item>, i: nat, j: nat): (r: seq<Item>)
    requires i < |s| && j < |s|
    ensures |r| == |s| && multiset(r) == multiset(s)
  {
    s[i := s[j]][j := s[i]]
  }

  // ---------- push_heap ----------

  function SiftUp(s: seq<Item>, i: nat): (r: seq<Item>)
    requires i < |s|
    ensures |r| == |s| && multiset(r) == multiset(s)
    decreases i
  {
    if i == 0 || Leads(s[Parent(i)], s[i]) then s else SiftUp(Swap(s, i, Parent(i)), Parent(i))
  }

  /** A heap but for the element at i, which may have to rise. */
  predicate RisingAt(s: seq<Item>, i: nat) {
    && (forall j :: 1 <= j < |s| && j != i ==> Leads(s[Parent(j)], s[j]))
    && (forall j :: 1 <= j < |s| && Parent(j) == i && i >= 1 ==> Leads(s[Parent(i)], s[j]))
  }

  lemma RisingSwap(s: seq<Item>, i: nat)
    requires 1 <= i < |s| && RisingAt(s, i) && !Leads(s[Parent(i)], s[i])
    ensures RisingAt(Swap(s, i, Parent(i)), Parent(i))
  {
    hide Leads;
    var p := Parent(i);
    var r := Swap(s, i, p);
    CompareIsOrder(s[p], s[i], s[i]);
    forall j | 1 <= j < |s| && j != p
      ensures Leads(r[Parent(j)], r[j])
    {
      if Parent(j) == p && j != i {
        CompareIsOrder(s[i], s[p], s[j]);
      }
    }
    forall j | 1 <= j < |s| && Parent(j) == p && p >= 1
      ensures Leads(r[Parent(p)], r[j])
    {
      CompareIsOrder(s[Parent(p)], s[p], s[j]);
    }
  }

  lemma {:induction false} SiftUpHeaps(s: seq<Item>, i: nat)
    requires i < |s| && RisingAt(s, i)
    ensures IsHeap(SiftUp(s, i))
    decreases i
  {
    hide Leads;
    if i != 0 && !Leads(s[Parent(i)], s[i]) {
      RisingSwap(s, i);
      SiftUpHeaps(Swap(s, i, Parent(i)), Parent(i));
    }
  }

  function PushHeap(s: seq<Item>, x: Item): (r: seq<Item>)
    ensures |r| == |s| + 1 && multiset(r) == multiset(s) + multiset{x}
  {
    SiftUp(s + [x], |s|)
  }

  lemma PushKeepsHeap(s: seq<Item>, x: Item)
    requires IsHeap(s)
    ensures IsHeap(PushHeap(s, x))
  {
    hide Leads;
    var t := s + [x];
    assert forall j :: 1 <= j < |s| ==> t[j] == s[j] && t[Parent(j)] == s[Parent(j)];
    SiftUpHeaps(t, |s|);
  }

  // ---------- pop_heap ----------

  /** The child of i that is served first. */
  function BestChild(s: seq<Item>, i: nat): nat
    requires 2 * i + 1 < |s|
  {
    if 2 * i + 2 < |s| && !Leads(s[2 * i + 1], s[2 * i + 2]) then 2 * i + 2 else 2 * i + 1
  }

  function SiftDown(s: seq<Item>, i: nat): (r: seq<Item>)
    requires i < |s|
    ensures |r| == |s| && multiset(r) == multiset(s)
    decreases |s| - i
  {
    if 2 * i + 1 >= |s| || Leads(s[i], s[BestChild(s, i)]) then s
    else SiftDown(Swap(s, i, BestChild(s, i)), BestChild(s, i))
  }

  /** A heap but for the element at i, which may have to sink. */
  predicate SinkingAt(s: seq<Item>, i: nat) {
    && (forall j :: 1 <= j < |s| && Parent(j) != i ==> Leads(s[Parent(j)], s[j]))
    && (forall j :: 1 <= j < |s| && Parent(j) == i && i >= 1 ==> Leads(s[Parent(i)], s[j]))
  }

  lemma BestChildLeads(s: seq<Item>, i: nat)
    requires 2 * i + 1 < |s|
    ensures var c := BestChild(s, i);
            c < |s| && Parent(c) == i && forall j :: 1 <= j < |s| && Parent(j) == i ==> Leads(s[c], s[j])
  {
    hide Leads;
    var l, r := 2 * i + 1, 2 * i + 2;
    assert forall j :: 1 <= j < |s| && Parent(j) == i ==> j == l || j == r;
    CompareIsOrder(s[l], s[l], s[l]);
    if r < |s| {
      CompareIsOrder(s[r], s[l], s[r]);
      CompareIsOrder(s[r], s[r], s[r]);
    }
  }

  lemma SinkingSwap(s: seq<Item>, i: nat)
    requires 2 * i + 1 < |s| && SinkingAt(s, i) && !Leads(s[i], s[BestChild(s, i)])
    ensures SinkingAt(Swap(s, i, BestChild(s, i)), BestChild(s, i))
  {
    BestChildLeads(s, i);
    hide Leads, BestChild;
    var c := BestChild(s, i);
    var r := Swap(s, i, c);
    CompareIsOrder(s[c], s[i], s[c]);
    forall j | 1 <= j < |s| && Parent(j) != c
      ensures Leads(r[Parent(j)], r[j])
    {
      if j == i {
        assert Leads(s[Parent(i)], s[c]);
      }
    }
    forall j | 1 <= j < |s| && Parent(j) == c
      ensures Leads(r[Parent(c)], r[j])
    {
      assert Leads(s[Parent(j)], s[j]);
    }
  }

  lemma {:induction false} SiftDownHeaps(s: seq<Item>, i: nat)
    requires i < |s| && SinkingAt(s, i)
    ensures IsHeap(SiftDown(s, i))
    decreases |s| - i
  {
    hide Leads;
    if 2 * i + 1 < |s| {
      BestChildLeads(s, i);
      var c := BestChild(s, i);
      if !Leads(s[i], s[c]) {
        SinkingSwap(s, i);
        SiftDownHeaps(Swap(s, i, c), c);
      } else {
        forall j | 1 <= j < |s|
          ensures Leads(s[Parent(j)], s[j])
        {
          if Parent(j) == i {
            CompareIsOrder(s[i], s[c], s[j]);
          }
        }
      }
    } else {
      assert forall j :: 1 <= j < |s| ==> Parent(j) != i;
    }
  }

  /** What is left after pop_heap and pop_back. */
  function PopHeap(s: seq<Item>): (r: seq<Item>)
    requires s != []
    ensures |r| == |s| - 1 && multiset(r) + multiset{s[0]} == multiset(s)
  {
    var n := |s| - 1;
    if n == 0 then
      assert s == [s[0]];
      []
    else
      assert s == [s[0]] + s[1..n] + [s[n]];
      SiftDown([s[n]] + s[1..n], 0)
  }

  lemma PopKeepsHeap(s: seq<Item>)
    requires IsHeap(s) && s != []
    ensures IsHeap(PopHeap(s))
  {
    hide Leads, SiftDown, SinkingAt;
    var n := |s| - 1;
    if n > 0 {
      LastOnTopSinks(s);
      SiftDownHeaps([s[n]] + s[1..n], 0);
    }
  }

  lemma LastOnTopSinks(s: seq<Item>)
    requires IsHeap(s) && |s| >= 2
    ensures SinkingAt([s[|s| - 1]] + s[1..|s| - 1], 0)
  {
    hide Leads;
    var t := [s[|s| - 1]] + s[1..|s| - 1];
    assert forall j :: 1 <= j < |t| ==> t[j] == s[j];
    forall j | 1 <= j < |t| && Parent(j) != 0
      ensures Leads(t[Parent(j)], t[j])
    {
      assert Leads(s[Parent(j)], s[j]);
    }
  }
}
