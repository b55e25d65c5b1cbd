/** The arbitration automaton: one object per node, one byte per step. */
module Request {
  import opened Bytes

  datatype RequestState = Observe | First | Retry | Second

  datatype RequestResult =
    | ObserveSyn | ObserveData | FirstSyn | FirstWon | FirstRetry | FirstLost | FirstError
    | RetrySyn | RetryError | SecondWon | SecondLost | SecondError

  const LOCK_COUNTER_LIMIT: byte := 25
  const COLLISION_BYTE_COUNT: nat := 1

  datatype Arbiter = Arbiter(
    state: RequestState, result: RequestResult,
    lockMax: byte, lock: byte, bytesSinceSyn: nat,
    address: byte, pending: bool, external: bool)

  predicate Allowed(from: RequestState, to: RequestState) {
    match from
    case Observe => to == Observe || to == First
    case First => to == Observe || to == First || to == Retry
    case Retry => to == Observe || to == Second
    case Second => to == Observe
  }

  /** transitionTo: an illegal move falls back to observing. */
  function Move(from: RequestState, to: RequestState): RequestState {
    if to == from || Allowed(from, to) then to else Observe
  }

  function OnObserve(a: Arbiter, b: byte): Arbiter {
    if b == SYN then
      a.(lock := if a.bytesSinceSyn != COLLISION_BYTE_COUNT && a.lock > 0 then a.lock - 1 else a.lock,
         result := ObserveSyn, bytesSinceSyn := 0)
    else
      a.(result := ObserveData, bytesSinceSyn := (a.bytesSinceSyn + 1) % 0x1_0000_0000)
  }

  function OnFirst(a: Arbiter, b: byte): Arbiter {
    if b == SYN then a.(state := First, result := FirstSyn, bytesSinceSyn := 0)
    else if b == a.address then a.(lock := a.lockMax, state := Observe, result := FirstWon, bytesSinceSyn := 0)
    else if IsMaster(b) && b % 16 == a.address % 16 then
      a.(state := Retry, pending := true, result := FirstRetry, bytesSinceSyn := COLLISION_BYTE_COUNT)
    else
      a.(state := Observe, result := if IsMaster(b) then FirstLost else FirstError,
         bytesSinceSyn := COLLISION_BYTE_COUNT)
  }

  function OnRetry(a: Arbiter, b: byte): Arbiter {
    if b == SYN then a.(state := Second, result := RetrySyn, bytesSinceSyn := 0)
    else a.(state := Observe, result := RetryError, bytesSinceSyn := COLLISION_BYTE_COUNT)
  }

  function OnSecond(a: Arbiter, b: byte): Arbiter {
    if b == a.address then a.(lock := a.lockMax, state := Observe, result := SecondWon, bytesSinceSyn := 0)
    else
      a.(state := Observe, result := if IsMaster(b) then SecondLost else SecondError,
         bytesSinceSyn := COLLISION_BYTE_COUNT)
  }

  function Step(a: Arbiter, b: byte): Arbiter {
    match a.state
    case Observe => OnObserve(a, b)
    case First => OnFirst(a, b)
    case Retry => OnRetry(a, b)
    case Second => OnSecond(a, b)
  }

  predicate BusAvailable(a: Arbiter) {
    a.result == ObserveSyn && a.lock == 0 && !a.pending
  }

  function Ask(a: Arbiter, address: byte, external: bool): Arbiter {
    if BusAvailable(a) then a.(address := address, external := external, pending := true) else a
  }

  function Complete(a: Arbiter): Arbiter {
    a.(pending := false, state := if a.state == Observe then First else a.state)
  }

  function Reset(a: Arbiter): Arbiter {
    a.(lock := a.lockMax, bytesSinceSyn := 0, pending := false, state := Observe)
  }

  function LockMax(counter: byte): byte {
    if counter < LOCK_COUNTER_LIMIT then counter else LOCK_COUNTER_LIMIT
  }

  function SetLock(a: Arbiter, counter: byte): Arbiter {
    var m := LockMax(counter);
    a.(lockMax := m, lock := if a.lock > m then m else a.lock)
  }

  class Request {
    var state: RequestState
    var result: RequestResult
    var lockMax: byte
    var lock: byte
    var bytesSinceSyn: nat
    var address: byte
    var pending: bool
    var external: bool

    function Value(): Arbiter
      reads this
    {
      Arbiter(state, result, lockMax, lock, bytesSinceSyn, address, pending, external)
    }

    /** The defaults of the runtime configuration: a lock counter of 3. */
    constructor ()
      ensures Value() == Arbiter(Observe, ObserveSyn, 3, 3, 0, 0, false, false)
    {
      state, result, lockMax, lock, bytesSinceSyn := Observe, ObserveSyn, 3, 3, 0;
      address, pending, external := 0, false, false;
    }

    method TransitionTo(next: RequestState)
      modifies this`state
      ensures state == Move(old(state), next)
    {
      if next == state {
        return;
      }
      state := if Allowed(state, next) then next else Observe;
    }

    method ResetAll()
      modifies this
      ensures Value() == Reset(old(Value()))
    {
      lock, bytesSinceSyn, pending := lockMax, 0, false;
      TransitionTo(Observe);
    }

    method SetLockCounter(counter: byte)
      modifies this
      ensures Value() == SetLock(old(Value()), counter)
    {
      lockMax := if counter < LOCK_COUNTER_LIMIT then counter else LOCK_COUNTER_LIMIT;
      if lock > lockMax {
        lock := lockMax;
      }
    }

    method RequestBus(source: byte, ext: bool) returns (armed: bool)
      modifies this
      ensures Value() == Ask(old(Value()), source, ext) && armed == pending
    {
      if result == ObserveSyn && lock == 0 && !pending {
        address, external, pending := source, ext, true;
      }
      armed := pending;
    }

    /** Returns whether it is the handler, and not an external client, that is told. */
    method BusRequestCompleted() returns (tellHandler: bool)
      modifies this
      ensures Value() == Complete(old(Value())) && tellHandler == !external
    {
      pending := false;
      if state == Observe {
        TransitionTo(First);
      }
      tellHandler := !external;
    }

    method Run(b: byte) returns (r: RequestResult)
      modifies this
      ensures Value() == Step(old(Value()), b) && r == result
    {
      match state {
        case Observe => RunObserve(b);
        case First => RunFirst(b);
        case Retry => RunRetry(b);
        case Second => RunSecond(b);
      }
      r := result;
    }

    method RunObserve(b: byte)
      requires state == Observe
      modifies this
      ensures Value() == OnObserve(old(Value()), b)
    {
      if b == SYN {
        if bytesSinceSyn != COLLISION_BYTE_COUNT {
          if lock > 0 {
            lock := lock - 1;
          }
        }
        result, bytesSinceSyn := ObserveSyn, 0;
      } else {
        result, bytesSinceSyn := ObserveData, (bytesSinceSyn + 1) % 0x1_0000_0000;
      }
    }

    method RunFirst(b: byte)
      requires state == First
      modifies this
      ensures Value() == OnFirst(old(Value()), b)
    {
      if b == SYN {
        TransitionTo(First);
        result, bytesSinceSyn := FirstSyn, 0;
      } else if b == address {
        lock := lockMax;
        TransitionTo(Observe);
        result, bytesSinceSyn := FirstWon, 0;
      } else if IsMaster(b) {
        if b % 16 == address % 16 {
          TransitionTo(Retry);
          pending, result, bytesSinceSyn := true, FirstRetry, COLLISION_BYTE_COUNT;
        } else {
          TransitionTo(Observe);
          result, bytesSinceSyn := FirstLost, COLLISION_BYTE_COUNT;
        }
      } else {
        TransitionTo(Observe);
        result, bytesSinceSyn := FirstError, COLLISION_BYTE_COUNT;
      }
    }

    method RunRetry(b: byte)
      requires state == Retry
      modifies this
      ensures Value() == OnRetry(old(Value()), b)
    {
      if b == SYN {
        TransitionTo(Second);
        result, bytesSinceSyn := RetrySyn, 0;
      } else {
        TransitionTo(Observe);
        result, bytesSinceSyn := RetryError, COLLISION_BYTE_COUNT;
      }
    }

    method RunSecond(b: byte)
      requires state == Second
      modifies this
      ensures Value() == OnSecond(old(Value()), b)
    {
      if b == address {
        lock := lockMax;
        TransitionTo(Observe);
        result, bytesSinceSyn := SecondWon, 0;
      } else if IsMaster(b) {
        TransitionTo(Observe);
        result, bytesSinceSyn := SecondLost, COLLISION_BYTE_COUNT;
      } else {
        TransitionTo(Observe);
        result, bytesSinceSyn := SecondError, COLLISION_BYTE_COUNT;
      }
    }
  }

  // ---------- Fairness over whole runs ----------

  datatype Event = Byte(b: byte) | Asked(address: byte, external: bool) | Completed | WasReset

  function Apply(a: Arbiter, ev: Event): Arbiter {
    match ev
    case Byte(b) => Step(a, b)
    case Asked(address, external) => Ask(a, address, external)
    case Completed => Complete(a)
    case WasReset => Reset(a)
  }

  function After(a: Arbiter, evs: seq<Event>): Arbiter {
    if evs == [] then a else Apply(After(a, evs[..|evs| - 1]), evs[|evs| - 1])
  }

  predicate IsWin(a: Arbiter, ev: Event) {
    ev.Byte? && ev.b == a.address && ((a.state == First && ev.b != SYN) || a.state == Second)
  }

  predicate IsAcceptance(a: Arbiter, ev: Event) {
    ev.Asked? && BusAvailable(a)
  }

  /** A SYN that counts: observed, and not right after exactly one byte. */
  predicate IsFreeSyn(a: Arbiter, ev: Event) {
    ev == Byte(SYN) && a.state == Observe && a.bytesSinceSyn != COLLISION_BYTE_COUNT
  }

  /** Number of counting SYNs along a run. */
  function FreeSyns(a: Arbiter, evs: seq<Event>): nat {
    if evs == [] then 0
    else
      var prefix := evs[..|evs| - 1];
      FreeSyns(a, prefix) + if IsFreeSyn(After(a, prefix), evs[|evs| - 1]) then 1 else 0
  }

  predicate LockBounded(a: Arbiter) {
    a.lock <= a.lockMax <= LOCK_COUNTER_LIMIT
  }

  /** Each counting SYN pays off at most one unit of the lock, and nothing else does. */
  lemma {:induction false} LockIsPaidBySyns(a: Arbiter, evs: seq<Event>)
    requires LockBounded(a)
    ensures var z := After(a, evs);
            LockBounded(z) && z.lockMax == a.lockMax && z.lock + FreeSyns(a, evs) >= a.lock
  {
    if evs != [] {
      LockIsPaidBySyns(a, evs[..|evs| - 1]);
    }
  }

  /** Neither a win nor a reset happens on the run. */
  predicate Calm(a: Arbiter, evs: seq<Event>) {
    evs != [] ==>
      && Calm(a, evs[..|evs| - 1])
      && evs[|evs| - 1] != WasReset && !IsWin(After(a, evs[..|evs| - 1]), evs[|evs| - 1])
  }

  /** While neither happens, the lock is exactly what the counting SYNs have left of it. */
  lemma {:induction false} LockExactly(a: Arbiter, evs: seq<Event>)
    requires Calm(a, evs)
    ensures After(a, evs).lock == (if FreeSyns(a, evs) <= a.lock then a.lock - FreeSyns(a, evs) else 0)
    ensures After(a, evs).lockMax == a.lockMax
  {
    if evs != [] {
      LockExactly(a, evs[..|evs| - 1]);
    }
  }

  /**
   * After any calm run that ends with a SYN read while observing, a request is taken if and only if none is
   * pending and the counting SYNs have paid the lock off.
   */
  lemma RequestTakenExactly(a: Arbiter, evs: seq<Event>, address: byte, external: bool)
    requires Calm(a, evs + [Byte(SYN)]) && After(a, evs).state == Observe
    ensures var z := After(a, evs + [Byte(SYN)]);
            Apply(z, Asked(address, external)) ==
            if FreeSyns(a, evs + [Byte(SYN)]) >= a.lock && !After(a, evs).pending then
              z.(address := address, external := external, pending := true)
            else z
  {
    hide FreeSyns, Calm;
    assert (evs + [Byte(SYN)])[..|evs|] == evs;
    LockExactly(a, evs + [Byte(SYN)]);
  }

  /** A node that observes counts the bytes since the last SYN. */
  lemma {:induction false} BytesAreCounted(a: Arbiter, bs: seq<byte>)
    requires a.state == Observe && SYN !in bs && |bs| < 0x1_0000_0000
    ensures var z := After(Step(a, SYN), seq(|bs|, i requires 0 <= i < |bs| => Byte(bs[i])));
            z.bytesSinceSyn == |bs| && z.state == Observe
  {
    var evs := seq(|bs|, i requires 0 <= i < |bs| => Byte(bs[i]));
    if bs != [] {
      var c := bs[..|bs| - 1];
      BytesAreCounted(a, c);
      assert evs[..|bs| - 1] == seq(|c|, i requires 0 <= i < |c| => Byte(c[i]));
      assert bs[|bs| - 1] in bs;
    }
  }

  /** The lock is set as asked, but never above 25, and never grows by it. */
  lemma LockIsLimited(a: Arbiter, counter: byte)
    ensures var z := SetLock(a, counter);
            && z.lockMax <= 25 && (counter <= 25 ==> z.lockMax == counter) && (counter > 25 ==> z.lockMax == 25)
            && z.lock <= z.lockMax && z.lock <= a.lock && (a.lock <= z.lockMax ==> z.lock == a.lock)
            && z == a.(lockMax := z.lockMax, lock := z.lock)
  {
  }

  /** The SYN after a lost or failed round does not count against the lock; the one after a win does. */
  lemma RoundThenSyn(a: Arbiter, b: byte)
    requires (a.state == First || a.state == Second) && b != SYN && a.address != SYN
    ensures b != a.address ==>
              Step(Step(a, b), SYN).lock == a.lock && (Step(a, b).state == Observe ==> Step(a, b).lock == a.lock)
    ensures b == a.address ==>
              Step(a, b).lock == a.lockMax && Step(Step(a, b), SYN).lock == (if a.lockMax > 0 then a.lockMax - 1 else 0)
  {
  }

  /** What is neither a SYN nor a master address ends an arbitration with an error; SYN begins a round anew. */
  lemma VerdictOnNoise(a: Arbiter, b: byte)
    requires a.state != Observe && IsMaster(a.address)
    ensures !IsMaster(b) && b != SYN ==>
              && Step(a, b).state == Observe
              && Step(a, b).result == (if a.state == First then FirstError else if a.state == Retry then RetryError else SecondError)
    ensures b == SYN && a.state == First ==> Step(a, b).state == First && Step(a, b).result == FirstSyn
    ensures b == SYN && a.state == Retry ==> Step(a, b).state == Second && Step(a, b).result == RetrySyn
  {
  }

  /** After a reset, too, the lock must be paid off, and nothing is pending. */
  lemma ResetWaits(a: Arbiter, evs: seq<Event>, ask: Event)
    requires LockBounded(a) && IsAcceptance(After(Apply(a, WasReset), evs), ask)
    ensures FreeSyns(Apply(a, WasReset), evs) >= a.lockMax
    ensures Apply(a, WasReset).state == Observe && !Apply(a, WasReset).pending
  {
    LockIsPaidBySyns(Apply(a, WasReset), evs);
  }

  /** Between a win and the next accepted request there are at least lockMax counting SYNs. */
  lemma WinnerWaits(a: Arbiter, win: Event, evs: seq<Event>, ask: Event)
    requires LockBounded(a) && IsWin(a, win)
    requires IsAcceptance(After(Apply(a, win), evs), ask)
    ensures FreeSyns(Apply(a, win), evs) >= a.lockMax
    ensures LockBounded(After(Apply(a, win), evs)) && a.lockMax <= 25
  {
    LockIsPaidBySyns(Apply(a, win), evs);
  }
}
