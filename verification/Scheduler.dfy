/** The scheduler: a bounded heap of messages, one active attempt, retries with backoff. */
module Scheduler {
  import opened Bytes
  import opened Heap

  const MAX_ITEMS := 8

  datatype Attempt = Attempt(item: Item, start: int)

  datatype Config = Config(maxAttempts: nat, baseBackoff: int, totalTimeout: int)

  datatype State = State(items: seq<Item>, active: Option<Attempt>, next: nat, current: nat)

  datatype Report = WonReport | LostReport | ErrorReport(fatal: bool) | TelegramReport

  datatype TickResult = Nothing | TimedOut(session: nat) | Started(item: Item)

  /** 2^(attempt-1) times the base, from a table of ten; beyond it the longest duration. */
  function Backoff(c: Config, attempt: int): int {
    if attempt <= 0 then 0
    else if attempt > 10 then 0x7FFF_FFFF_FFFF_FFFF
    else c.baseBackoff * [1, 2, 4, 8, 16, 32, 64, 128, 256, 512][attempt - 1]
  }

  /** Returns the session id, or 0 when the queue is full; an id is consumed either way. */
  function Enqueue(s: State, priority: byte, message: seq<byte>, when: int, poll: nat): (State, nat) {
    var bumped := s.(next := s.next + 1);
    if |s.items| >= MAX_ITEMS then (bumped, 0)
    else (bumped.(items := PushHeap(s.items, Item(priority, when, s.next, poll, 0, message))), s.next)
  }

  predicate Matches(s: State, session: nat) {
    s.active.Some? && s.active.value.item.session == session
  }

  predicate Retries(c: Config, item: Item, r: Report) {
    (r == LostReport || r == ErrorReport(false)) && item.attempts + 1 < c.maxAttempts
  }

  function Again(c: Config, item: Item, now: int): Item {
    item.(attempts := item.attempts + 1, due := now + Backoff(c, item.attempts + 1))
  }

  function Inject(c: Config, s: State, session: nat, r: Report, now: int): State {
    if !Matches(s, session) || r == WonReport then s
    else
      var item := s.active.value.item;
      var done := s.(active := None, current := 0);
      if Retries(c, item, r) && |s.items| < MAX_ITEMS then done.(items := PushHeap(s.items, Again(c, item, now))) else done
  }

  /** `busy`: the handler still has a message pending. */
  function Tick(c: Config, s: State, now: int, busy: bool): (State, TickResult) {
    if s.active.Some? then
      (s, if now - s.active.value.start > c.totalTimeout then TimedOut(s.active.value.item.session) else Nothing)
    else if s.items == [] || s.items[0].due > now || busy then (s, Nothing)
    else
      (s.(items := PopHeap(s.items), active := Some(Attempt(s.items[0], now)), current := s.items[0].session),
       Started(s.items[0]))
  }

  function Clear(s: State): State {
    s.(items := [], active := None)
  }

  class SchedulerMachine {
    var items: seq<Item>
    var active: Option<Attempt>
    var nextSession: nat
    var currentSession: nat
    const config: Config

    constructor (config: Config)
      ensures this.config == config && Value() == State([], None, 1, 0) && IsHeap(items)
    {
      this.config := config;
      items, active, nextSession, currentSession := [], None, 1, 0;
    }

    function Value(): State
      reads this
    {
      State(items, active, nextSession, currentSession)
    }

    /** StaticVector::push_back and std::push_heap: a full queue takes nothing. */
    method PushBounded(it: Item) returns (pushed: bool)
      requires IsHeap(items)
      modifies this`items
      ensures pushed <==> |old(items)| < MAX_ITEMS
      ensures items == (if pushed then PushHeap(old(items), it) else old(items)) && IsHeap(items)
    {
      if |items| >= MAX_ITEMS {
        return false;
      }
      PushKeepsHeap(items, it);
      items := PushHeap(items, it);
      pushed := true;
    }

    method EnqueueAt(priority: byte, message: seq<byte>, when: int, poll: nat) returns (session: nat)
      requires IsHeap(items)
      modifies this
      ensures (Value(), session) == Enqueue(old(Value()), priority, message, when, poll) && IsHeap(items)
    {
      var it := Item(priority, when, nextSession, poll, 0, message);
      nextSession := nextSession + 1;
      var pushed := PushBounded(it);
      session := if pushed then it.session else 0;
    }

    method InjectProtocolEvent(session: nat, r: Report, now: int) returns (changed: bool)
      requires IsHeap(items)
      modifies this
      ensures Value() == Inject(config, old(Value()), session, r, now) && IsHeap(items)
      ensures changed == Matches(old(Value()), session)
    {
      hide Backoff, PushHeap, IsHeap;
      if active.None? || session != active.value.item.session {
        return false;
      }
      if r == WonReport {
        return true;
      }
      if r == LostReport || r.ErrorReport? {
        var item := active.value.item.(attempts := active.value.item.attempts + 1);
        if r != ErrorReport(true) && item.attempts < config.maxAttempts {
          item := item.(due := now + Backoff(config, item.attempts));
          var pushed := PushBounded(item);
          active, currentSession := None, 0;
          return true;
        }
      }
      active, currentSession := None, 0;
      changed := true;
    }

    method RunTick(now: int, busy: bool) returns (r: TickResult)
      requires IsHeap(items)
      modifies this
      ensures (Value(), r) == Tick(config, old(Value()), now, busy) && IsHeap(items)
    {
      r := Nothing;
      if active.Some? {
        if now - active.value.start > config.totalTimeout {
          r := TimedOut(active.value.item.session);
        }
      } else if items != [] && items[0].due <= now {
        if busy {
          return;
        }
        var item := items[0];
        PopKeepsHeap(items);
        items := PopHeap(items);
        currentSession := item.session;
        active := Some(Attempt(item, now));
        r := Started(item);
      }
    }

    method ClearAll()
      modifies this
      ensures Value() == Clear(old(Value())) && IsHeap(items)
      ensures items == [] && active == None && nextSession == old(nextSession) && currentSession == old(currentSession)
    {
      items, active := [], None;
    }
  }

  // ---------- What each operation does, in the fields ----------

  function Pow2(n: nat): nat {
    if n == 0 then 1 else 2 * Pow2(n - 1)
  }

  /** The delay doubles with each failed attempt before, up to the tenth; then it is the longest there is. */
  function Delay(base: int, attempts: nat): int {
    if attempts < 10 then base * Pow2(attempts) else 0x7FFF_FFFF_FFFF_FFFF
  }

  lemma BackoffDoubles(c: Config, attempts: nat)
    ensures Backoff(c, attempts + 1) == Delay(c.baseBackoff, attempts)
  {
    if attempts < 10 {
      assert Pow2(3) == 8 && Pow2(6) == 64 && Pow2(9) == 512;
      assert Pow2(attempts) == [1, 2, 4, 8, 16, 32, 64, 128, 256, 512][attempts];
    }
  }

  /** An accepted message is queued as given, under a fresh session, and nothing else changes. */
  lemma EnqueueQueues(s: State, priority: byte, message: seq<byte>, when: int, poll: nat)
    ensures var (r, id) := Enqueue(s, priority, message, when, poll);
            && r.active == s.active && r.current == s.current && r.next == s.next + 1
            && if |s.items| < 8 then
                 && id == s.next
                 && multiset(r.items) == multiset(s.items) + multiset{Item(priority, when, id, poll, 0, message)}
               else id == 0 && r.items == s.items
  {
    hide SiftUp;
  }

  /**
   * A report for the active session: lost, or an error that is not structural, before the last attempt,
   * queues the same message again, one attempt further and delayed, if there is room. Any other report but
   * "won" ends the session. A report for another session changes nothing.
   */
  lemma InjectDecides(c: Config, s: State, session: nat, r: Report, now: int)
    ensures var z := Inject(c, s, session, r, now);
            if s.active.None? || s.active.value.item.session != session || r.WonReport? then z == s
            else
              var x := s.active.value.item;
              && z.active == None && z.current == 0 && z.next == s.next
              && if (r.LostReport? || (r.ErrorReport? && !r.fatal)) && x.attempts + 1 < c.maxAttempts && |s.items| < 8 then
                   multiset(z.items) == multiset(s.items) + multiset{
                     Item(x.priority, now + Delay(c.baseBackoff, x.attempts), x.session, x.poll, x.attempts + 1, x.message)}
                 else z.items == s.items
  {
    hide SiftUp, Backoff, Delay;
    if s.active.Some? {
      BackoffDoubles(c, s.active.value.item.attempts);
    }
  }

  /** The item that precedes the whole queue. */
  ghost predicate IsFirst(items: seq<Item>, x: Item) {
    x in items && forall y :: y in items ==> Precedes(x, y)
  }

  lemma FrontIsFirst(items: seq<Item>)
    requires IsHeap(items) && items != []
    ensures IsFirst(items, items[0])
  {
    hide Precedes, Leads;
    forall y | y in items
      ensures Precedes(items[0], y)
    {
      var i :| 0 <= i < |items| && items[i] == y;
      FirstLeads(items, i);
      LeadsIsPrecedes(items[0], y);
    }
  }

  /**
   * What is started is due, is started only with nothing active and a free handler, and is the first of the
   * whole queue: no queued item lies in an earlier window, none of its window has a higher priority, and
   * none of its window and priority an older session.
   */
  lemma TickStartsTheFirst(c: Config, s: State, now: int, busy: bool)
    requires IsHeap(s.items) && Tick(c, s, now, busy).1.Started?
    ensures var item := Tick(c, s, now, busy).1.item;
            var z := Tick(c, s, now, busy).0;
            && item.due <= now && s.active.None? && !busy && IsFirst(s.items, item)
            && z.active == Some(Attempt(item, now)) && z.current == item.session && z.next == s.next
            && multiset(z.items) + multiset{item} == multiset(s.items)
  {
    hide PopHeap, IsHeap, IsFirst;
    FrontIsFirst(s.items);
  }

  /** Without a start nothing changes: nothing was first and due, or an attempt is running, or the handler is not free. */
  lemma TickWaits(c: Config, s: State, now: int, busy: bool)
    requires IsHeap(s.items) && !Tick(c, s, now, busy).1.Started?
    ensures Tick(c, s, now, busy).0 == s
    ensures s.active.Some? || busy || s.items == [] || exists x :: IsFirst(s.items, x) && x.due > now
    ensures Tick(c, s, now, busy).1 ==
            if s.active.Some? && now > s.active.value.start + c.totalTimeout then TimedOut(s.active.value.item.session) else Nothing
  {
    hide PopHeap, IsHeap, IsFirst;
    if s.items != [] {
      FrontIsFirst(s.items);
    }
  }

  // ---------- Accounting over whole runs ----------

  datatype Event =
    | Enqueued(priority: byte, message: seq<byte>, when: int, poll: nat)
    | Injected(session: nat, report: Report, now: int)
    | Ticked(now: int, busy: bool)
    | Cleared

  /** The scheduler with the history of every session it ever accepted. */
  datatype Ledger = Ledger(
    s: State, accepted: set<nat>, finished: set<nat>, cleared: set<nat>, dropped: set<nat>, starts: multiset<nat>)

  function Sessions(items: seq<Item>): set<nat> {
    set x | x in items :: x.session
  }

  function ActiveSession(s: State): set<nat> {
    if s.active.Some? then {s.active.value.item.session} else {}
  }

  function Apply(c: Config, l: Ledger, ev: Event): Ledger {
    match ev
    case Enqueued(priority, message, when, poll) =>
      var (s, id) := Enqueue(l.s, priority, message, when, poll);
      l.(s := s, accepted := if id == 0 then l.accepted else l.accepted + {id})
    case Injected(session, r, now) =>
      var s := Inject(c, l.s, session, r, now);
      if !Matches(l.s, session) || r == WonReport then l.(s := s)
      else if !Retries(c, l.s.active.value.item, r) then l.(s := s, finished := l.finished + {session})
      else if |l.s.items| >= MAX_ITEMS then l.(s := s, dropped := l.dropped + {session})
      else l.(s := s)
    case Ticked(now, busy) =>
      var (s, r) := Tick(c, l.s, now, busy);
      l.(s := s, starts := if r.Started? then l.starts + multiset{r.item.session} else l.starts)
    case Cleared =>
      l.(s := Clear(l.s), cleared := l.cleared + Sessions(l.s.items) + ActiveSession(l.s))
  }

  /** No session is queued twice. */
  predicate Distinct(items: seq<Item>) {
    |Sessions(items)| == |items|
  }

  /** Each session is queued, active, finished, cleared or dropped, and in one of them only. */
  predicate Partition(l: Ledger) {
    var q, a := Sessions(l.s.items), ActiveSession(l.s);
    && Distinct(l.s.items)
    && l.accepted == q + a + l.finished + l.cleared + l.dropped
    && q !! a !! l.finished !! l.cleared !! l.dropped
    && (forall id :: id in l.accepted ==> 1 <= id < l.s.next)
  }

  /** Starts so far are the attempts counted in the item, plus the one in progress. */
  predicate Counted(c: Config, l: Ledger) {
    && (forall x :: x in l.s.items ==> l.starts[x.session] == x.attempts < c.maxAttempts)
    && (l.s.active.Some? ==>
          var x := l.s.active.value.item; l.starts[x.session] == x.attempts + 1 <= c.maxAttempts)
    && (forall id :: id in l.starts ==> id in l.accepted && l.starts[id] <= c.maxAttempts)
  }

  predicate Inv(c: Config, l: Ledger) {
    IsHeap(l.s.items) && |l.s.items| <= MAX_ITEMS && l.s.next >= 1 && Partition(l) && Counted(c, l)
  }

  lemma {:induction false} SessionsBound(items: seq<Item>)
    ensures |Sessions(items)| <= |items|
  {
    if items != [] {
      var n := |items| - 1;
      SessionsBound(items[..n]);
      assert items == items[..n] + [items[n]];
      assert Sessions(items) == Sessions(items[..n]) + {items[n].session};
    }
  }

  /** Adding or removing one item adds or removes one session. */
  lemma SessionsMove(small: seq<Item>, big: seq<Item>, x: Item)
    requires multiset(big) == multiset(small) + multiset{x}
    ensures Sessions(big) == Sessions(small) + {x.session} && |big| == |small| + 1
    ensures forall y :: y in big <==> y in small || y == x
    ensures Distinct(big) <==> Distinct(small) && x.session !in Sessions(small)
  {
    assert |multiset(big)| == |big| && |multiset(small)| == |small|;
    assert forall y :: y in big <==> y in multiset(big);
    assert forall y :: y in small <==> y in multiset(small);
    assert Sessions(big) == Sessions(small) + {x.session};
    SessionsBound(small);
  }

  lemma KeepEnqueue(c: Config, l: Ledger, ev: Event)
    requires Inv(c, l) && c.maxAttempts >= 1 && ev.Enqueued?
    ensures Inv(c, Apply(c, l, ev))
  {
    hide PushHeap, Sessions, Distinct, IsHeap;
    var x := Item(ev.priority, ev.when, l.s.next, ev.poll, 0, ev.message);
    assert l.s.next !in l.accepted;
    if |l.s.items| < MAX_ITEMS {
      var items := PushHeap(l.s.items, x);
      PushKeepsHeap(l.s.items, x);
      PushFacts(l.s.items, x);
      assert l.starts[x.session] == 0;
    }
  }

  lemma PushFacts(s: seq<Item>, x: Item)
    ensures var r := PushHeap(s, x);
            && Sessions(r) == Sessions(s) + {x.session} && |r| == |s| + 1
            && (forall y :: y in r <==> y in s || y == x)
            && (Distinct(r) <==> Distinct(s) && x.session !in Sessions(s))
  {
    hide SiftUp, Sessions, Distinct;
    SessionsMove(s, PushHeap(s, x), x);
  }

  lemma PopFacts(s: seq<Item>)
    requires s != []
    ensures var r := PopHeap(s);
            && Sessions(s) == Sessions(r) + {s[0].session} && |s| == |r| + 1
            && (forall y :: y in s <==> y in r || y == s[0])
            && (Distinct(s) <==> Distinct(r) && s[0].session !in Sessions(r))
  {
    hide SiftDown, Sessions, Distinct;
    SessionsMove(PopHeap(s), s, s[0]);
  }

  lemma SessionOf(items: seq<Item>, x: Item)
    requires x in items
    ensures x.session in Sessions(items)
  {
  }

  lemma KeepInject(c: Config, l: Ledger, ev: Event)
    requires Inv(c, l) && ev.Injected?
    ensures Inv(c, Apply(c, l, ev))
  {
    hide PushHeap, Sessions, Distinct, IsHeap, Backoff;
    if Matches(l.s, ev.session) && ev.report != WonReport {
      var item := l.s.active.value.item;
      if Retries(c, item, ev.report) && |l.s.items| < MAX_ITEMS {
        var x := Again(c, item, ev.now);
        PushKeepsHeap(l.s.items, x);
        PushFacts(l.s.items, x);
      }
    }
  }

  lemma KeepTick(c: Config, l: Ledger, ev: Event)
    requires Inv(c, l) && ev.Ticked?
    ensures Inv(c, Apply(c, l, ev))
  {
    hide PopHeap, Sessions, Distinct, IsHeap;
    if Tick(c, l.s, ev.now, ev.busy).1.Started? {
      var first := l.s.items[0];
      PopKeepsHeap(l.s.items);
      PopFacts(l.s.items);
      var rest := PopHeap(l.s.items);
      forall x | x in rest ensures x.session != first.session {
        SessionOf(rest, x);
      }
      assert first in l.s.items;
    }
  }

  lemma KeepClear(c: Config, l: Ledger)
    requires Inv(c, l)
    ensures Inv(c, Apply(c, l, Cleared))
  {
    hide Sessions, ActiveSession, IsHeap;
    NoSessions();
    ClearedIsInactive(l.s);
    ClearMoves(l.accepted, Sessions(l.s.items), ActiveSession(l.s), l.finished, l.cleared, l.dropped);
    assert IsHeap([]) by { EmptyHeap(); }
  }

  lemma EmptyHeap()
    ensures IsHeap([])
  {
  }

  lemma ClearMoves(all: set<nat>, q: set<nat>, a: set<nat>, f: set<nat>, c: set<nat>, d: set<nat>)
    requires all == q + a + f + c + d && q !! a !! f !! c !! d
    ensures all == {} + {} + f + (c + q + a) + d
    ensures var none: set<nat> := {}; none !! none !! f !! (c + q + a) !! d
  {
  }

  lemma NoSessions()
    ensures Sessions([]) == {}
  {
  }

  lemma ClearedIsInactive(s: State)
    ensures ActiveSession(Clear(s)) == {}
  {
  }

  lemma StepKeeps(c: Config, l: Ledger, ev: Event)
    requires Inv(c, l) && c.maxAttempts >= 1
    ensures Inv(c, Apply(c, l, ev))
  {
    hide Inv, Apply;
    match ev {
      case Enqueued(_, _, _, _) => KeepEnqueue(c, l, ev);
      case Injected(_, _, _) => KeepInject(c, l, ev);
      case Ticked(_, _) => KeepTick(c, l, ev);
      case Cleared => KeepClear(c, l);
    }
  }

  function RunFrom(c: Config, l: Ledger, evs: seq<Event>): Ledger {
    if evs == [] then l else Apply(c, RunFrom(c, l, evs[..|evs| - 1]), evs[|evs| - 1])
  }

  const EMPTY_LEDGER := Ledger(State([], None, 1, 0), {}, {}, {}, {}, multiset{})

  lemma {:induction false} RunKeeps(c: Config, evs: seq<Event>)
    requires c.maxAttempts >= 1
    ensures Inv(c, RunFrom(c, EMPTY_LEDGER, evs))
  {
    hide Apply;
    if evs == [] {
      NoSessions();
    } else {
      hide Inv;
      RunKeeps(c, evs[..|evs| - 1]);
      StepKeeps(c, RunFrom(c, EMPTY_LEDGER, evs[..|evs| - 1]), evs[|evs| - 1]);
    }
  }

  /**
   * On every run, with any reports, stale ones included: the queue is a heap of at most eight items;
   * every accepted session is in exactly one of queued, active, finished, cleared or dropped on a full
   * requeue; and no session is started more than maxAttempts times.
   */
  lemma ConservationAndBoundedRetry(c: Config, evs: seq<Event>)
    requires c.maxAttempts >= 1
    ensures var l := RunFrom(c, EMPTY_LEDGER, evs);
            && IsHeap(l.s.items) && |l.s.items| <= MAX_ITEMS
            && Sessions(l.s.items) !! ActiveSession(l.s) !! l.finished !! l.cleared !! l.dropped
            && l.accepted == Sessions(l.s.items) + ActiveSession(l.s) + l.finished + l.cleared + l.dropped
            && |Sessions(l.s.items)| == |l.s.items|
            && forall id :: l.starts[id] <= c.maxAttempts
  {
    hide Apply, Sessions, ActiveSession, IsHeap;
    RunKeeps(c, evs);
    var l := RunFrom(c, EMPTY_LEDGER, evs);
    forall id ensures l.starts[id] <= c.maxAttempts {
      if id in l.starts {
      }
    }
  }
}
