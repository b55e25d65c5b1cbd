/** The automatic SYN generator: its timer rule, and the election that several generators perform by it. */
module SynGenerator {
  import opened Bytes

  /** Times are integers in microseconds. */
  const BASE := 50_000
  const TOLERANCE := 5_000
  const ADDRESS_FACTOR := 10_000
  const POSTPONE := 2_000
  const CARRIER_SENSE := 5_000
  const SERIALIZATION := 4_000

  datatype Timer = Timer(address: byte, active: bool, expiry: int, lastActivity: int)

  function Unique(address: byte): int {
    BASE + address * ADDRESS_FACTOR + TOLERANCE
  }

  /** resetSynTimerInternal: a byte was read. */
  function OnRead(t: Timer, now: int, b: byte): Timer {
    if t.active && b == SYN then t.(lastActivity := now, expiry := now + BASE)
    else t.(lastActivity := now, active := false, expiry := now + Unique(t.address))
  }

  /** The timer part of writeByte. */
  function OnWrite(t: Timer, now: int, b: byte): Timer {
    t.(lastActivity := now, active := t.active && b == SYN, expiry := now + Unique(t.address) + SERIALIZATION)
  }

  /** One turn of the generator thread: does it write a SYN? */
  predicate Fires(t: Timer, now: int) {
    t.expiry <= now && now - t.lastActivity >= CARRIER_SENSE
  }

  /** `later` is the clock after the write; the fallback applies when the write took too long. */
  function Turn(t: Timer, now: int, later: int): Timer {
    if t.expiry > now then t
    else if now - t.lastActivity < CARRIER_SENSE then t.(expiry := now + POSTPONE)
    else
      var w := OnWrite(t.(active := true), now, SYN);
      if w.expiry <= later then w.(expiry := later + Unique(t.address)) else w
  }

  class SynTimer {
    const address: byte
    var active: bool
    var expiry: int
    var lastActivity: int

    constructor (address: byte, now: int)
      ensures Value() == Timer(address, false, now + Unique(address), now)
    {
      this.address := address;
      active, expiry, lastActivity := false, now + Unique(address), now;
    }

    function Value(): Timer
      reads this
    {
      Timer(address, active, expiry, lastActivity)
    }

    method ResetSynTimer(now: int, b: byte)
      modifies this
      ensures Value() == OnRead(old(Value()), now, b)
    {
      lastActivity := now;
      if active && b == SYN {
        expiry := now + BASE;
      } else {
        active := false;
        expiry := now + Unique(address);
      }
    }

    method WriteByte(now: int, b: byte)
      modifies this
      ensures Value() == OnWrite(old(Value()), now, b)
    {
      lastActivity := now;
      if b != SYN {
        active := false;
      }
      expiry := now + Unique(address) + SERIALIZATION;
    }

    /** Returns whether a SYN was written. */
    method SynThreadTurn(now: int, later: int) returns (wrote: bool)
      modifies this
      ensures Value() == Turn(old(Value()), now, later) && wrote == Fires(old(Value()), now)
    {
      if expiry > now {
        return false;
      }
      if now - lastActivity < CARRIER_SENSE {
        expiry := now + POSTPONE;
        return false;
      }
      active := true;
      WriteByte(now, SYN);
      if expiry <= later {
        expiry := later + Unique(address);
      }
      wrote := true;
    }
  }

  // ---------- The timer rule in milliseconds ----------

  /** Whatever the timer says, no SYN is written within five milliseconds after a byte was read or written. */
  lemma CarrierIsSensed(t: Timer, at: int, b: byte, due: int, now: int)
    requires Fires(OnRead(t, at, b).(expiry := due), now) || Fires(OnWrite(t, at, b).(expiry := due), now)
    ensures now >= at + 5_000
  {
  }

  /**
   * After a byte was read, the generator writes exactly when 50 ms have passed, if it was generating and
   * read a SYN; otherwise it stops generating and writes when 55 ms and 10 ms per address have passed.
   */
  lemma PeriodAfterRead(t: Timer, at: int, b: byte, now: int)
    ensures var r := OnRead(t, at, b);
            && (t.active && b == SYN ==> r.active && (Fires(r, now) <==> now >= at + 50_000))
            && (!(t.active && b == SYN) ==> !r.active && (Fires(r, now) <==> now >= at + 55_000 + 10_000 * t.address))
  {
  }

  /** A due timer that senses the carrier waits two more milliseconds; a timer that is not due is left alone. */
  lemma DueOrPostponed(t: Timer, now: int, later: int)
    requires now <= later
    ensures now < t.expiry ==> Turn(t, now, later) == t
    ensures t.expiry <= now < t.lastActivity + 5_000 ==> Turn(t, now, later) == t.(expiry := now + 2_000)
  {
  }

  /**
   * A generator that has written its SYN repeats it: read back, 50 ms later; lost, no earlier than after the
   * time of a silent bus, counted from the write or, when writing took longer than that, from its end.
   */
  lemma GeneratorRepeats(t: Timer, now: int, later: int, read: int, next: int)
    requires Fires(t, now) && now <= later
    ensures var w := Turn(t, now, later);
            && w.active
            && (Fires(OnRead(w, read, SYN), next) <==> next >= read + 50_000)
            && (later < now + 59_000 + 10_000 * t.address ==>
                  (Fires(w, next) <==> next >= now + 59_000 + 10_000 * t.address))
            && (later >= now + 59_000 + 10_000 * t.address ==>
                  (Fires(w, next) <==> next >= later + 55_000 + 10_000 * t.address))
  {
  }

  // ---------- Several generators on one bus ----------

  /** `flight` is the expiry that caused the SYN now on its way, `read` the time of the last common byte. */
  datatype Net = Net(timers: seq<Timer>, flight: Option<int>, read: int)

  datatype Event = ThreadTurn(i: nat, now: int, later: int) | Arrival(now: int)

  predicate Applicable(n: Net, ev: Event) {
    match ev
    case ThreadTurn(i, now, later) => i < |n.timers| && now <= later
    case Arrival(_) => n.flight.Some?
  }

  function Apply(n: Net, ev: Event): Net {
    if !Applicable(n, ev) then n
    else
      match ev
      case ThreadTurn(i, now, later) =>
        var t := n.timers[i];
        Net(n.timers[i := Turn(t, now, later)], if Fires(t, now) then Some(t.expiry) else n.flight, n.read)
      case Arrival(now) =>
        Net(seq(|n.timers|, i requires 0 <= i < |n.timers| => OnRead(n.timers[i], now, SYN)), None, now)
  }

  /**
   * The bus is otherwise idle and its latency stays under ten milliseconds: nothing happens later than
   * that after the timer of node k expired, unless its SYN has arrived by then.
   */
  predicate Timely(n: Net, k: nat, ev: Event)
    requires k < |n.timers|
  {
    (if ev.ThreadTurn? then ev.later else ev.now)
      < (if n.flight.Some? then n.flight.value else n.timers[k].expiry) + ADDRESS_FACTOR
  }

  predicate HasLowest(timers: seq<Timer>, k: nat) {
    k < |timers| && forall i :: 0 <= i < |timers| && i != k ==> timers[k].address < timers[i].address
  }

  /** Every node has read the same byte at n.read; only node k may be generating. */
  predicate Elected(n: Net, k: nat) {
    && HasLowest(n.timers, k)
    && (forall i :: 0 <= i < |n.timers| && i != k ==>
          !n.timers[i].active && n.timers[i].expiry == n.read + Unique(n.timers[i].address))
    && (match n.flight
        case None =>
          && n.read + BASE <= n.timers[k].expiry <= n.read + Unique(n.timers[k].address)
          && n.timers[k].lastActivity == n.read
        case Some(due) =>
          && due <= n.read + Unique(n.timers[k].address)
          && n.timers[k].active && due + Unique(n.timers[k].address) < n.timers[k].expiry)
  }

  /** All nodes read the same byte. */
  function CommonByte(timers: seq<Timer>, now: int, b: byte): Net {
    Net(seq(|timers|, i requires 0 <= i < |timers| => OnRead(timers[i], now, b)), None, now)
  }

  /** Another node goes on as the active generator. */
  predicate Persists(timers: seq<Timer>, k: nat, b: byte, j: nat) {
    j < |timers| && j != k && timers[j].active && b == SYN
  }

  /** Otherwise the common byte elects the lowest address. */
  lemma CommonByteStarts(timers: seq<Timer>, k: nat, now: int, b: byte)
    requires HasLowest(timers, k) && forall j :: !Persists(timers, k, b, j)
    ensures Elected(CommonByte(timers, now, b), k)
  {
    var n := CommonByte(timers, now, b);
    assert forall i :: 0 <= i < |timers| ==> n.timers[i] == OnRead(timers[i], now, b);
    forall i | 0 <= i < |timers| && i != k
      ensures !n.timers[i].active
    {
      assert !Persists(timers, k, b, i);
    }
  }

  lemma TurnKeeps(n: Net, k: nat, ev: Event)
    requires Elected(n, k) && ev.ThreadTurn? && Applicable(n, ev) && Timely(n, k, ev)
    ensures Elected(Apply(n, ev), k)
    ensures ev.i != k ==> !Fires(n.timers[ev.i], ev.now)
    ensures forall i :: 0 <= i < |n.timers| && i != k ==> ev.now < n.timers[i].expiry
    ensures n.flight.Some? ==> !Fires(n.timers[ev.i], ev.now)
  {
    assert n.timers[ev.i].address > n.timers[k].address || ev.i == k;
  }

  lemma ArrivalKeeps(n: Net, k: nat, now: int)
    requires Elected(n, k) && n.flight.Some? && Timely(n, k, Arrival(now))
    ensures Elected(Apply(n, Arrival(now)), k)
    ensures forall i :: 0 <= i < |n.timers| && i != k ==> now < n.timers[i].expiry
  {
  }

  predicate RunFits(n: Net, k: nat, evs: seq<Event>) {
    evs != [] ==>
      && RunFits(n, k, evs[..|evs| - 1])
      && var z := After(n, evs[..|evs| - 1]);
         k < |z.timers| && Applicable(z, evs[|evs| - 1]) && Timely(z, k, evs[|evs| - 1])
  }

  function After(n: Net, evs: seq<Event>): Net {
    if evs == [] then n else Apply(After(n, evs[..|evs| - 1]), evs[|evs| - 1])
  }

  lemma {:induction false} RunKeepsElected(n: Net, k: nat, evs: seq<Event>)
    requires Elected(n, k) && RunFits(n, k, evs)
    ensures Elected(After(n, evs), k)
  {
    hide Elected, Apply, Timely;
    if evs != [] {
      var z := After(n, evs[..|evs| - 1]);
      RunKeepsElected(n, k, evs[..|evs| - 1]);
      match evs[|evs| - 1] {
        case ThreadTurn(_, _, _) => TurnKeeps(z, k, evs[|evs| - 1]);
        case Arrival(now) => ArrivalKeeps(z, k, now);
      }
    }
  }

  /**
   * On every timely run only the lowest address ever generates, never twice for one arrival, and every
   * other timer is reset before it expires.
   */
  lemma OnlyTheLowestGenerates(n: Net, k: nat, evs: seq<Event>, ev: Event)
    requires Elected(n, k) && RunFits(n, k, evs + [ev])
    ensures var z := After(n, evs);
            && (ev.ThreadTurn? && ev.i < |z.timers| && Fires(z.timers[ev.i], ev.now) ==> ev.i == k && z.flight.None?)
            && (forall i :: 0 <= i < |z.timers| && i != k ==> !z.timers[i].active && ev.now < z.timers[i].expiry)
  {
    assert (evs + [ev])[..|evs|] == evs;
    RunKeepsElected(n, k, evs);
    var z := After(n, evs);
    if ev.ThreadTurn? {
      TurnKeeps(z, k, ev);
    } else {
      ArrivalKeeps(z, k, ev.now);
    }
  }

  /** On no timely run does a node other than k write a SYN. */
  ghost predicate OnlyFires(n: Net, k: nat) {
    forall evs: seq<Event>, i: nat, now: int, later: int ::
      RunFits(n, k, evs + [ThreadTurn(i, now, later)]) && i < |After(n, evs).timers| && Fires(After(n, evs).timers[i], now)
      ==> i == k
  }

  lemma ElectedOnlyFires(n: Net, k: nat)
    requires Elected(n, k)
    ensures OnlyFires(n, k)
  {
    hide Elected, RunFits, Fires;
    forall evs: seq<Event>, i: nat, now: int, later: int |
      RunFits(n, k, evs + [ThreadTurn(i, now, later)]) && i < |After(n, evs).timers| && Fires(After(n, evs).timers[i], now)
      ensures i == k
    {
      OnlyTheLowestGenerates(n, k, evs, ThreadTurn(i, now, later));
    }
  }

  /** A node that was already generating writes the next SYN, in time and before the elected node can object. */
  lemma PersistentFires(timers: seq<Timer>, k: nat, now: int, b: byte, j: nat)
    requires HasLowest(timers, k) && Persists(timers, k, b, j)
    ensures var n := CommonByte(timers, now, b);
            var ev := ThreadTurn(j, now + BASE, now + BASE);
            RunFits(n, k, [] + [ev]) && Fires(After(n, []).timers[j], now + BASE) && !OnlyFires(n, k)
  {
    hide OnlyFires;
    var n := CommonByte(timers, now, b);
    var ev := ThreadTurn(j, now + BASE, now + BASE);
    assert n.timers[j] == OnRead(timers[j], now, b) && n.timers[k] == OnRead(timers[k], now, b);
    assert ([] + [ev])[..0] == [];
    assert RunFits(n, k, []);
    assert After(n, []) == n && ([] + [ev])[0] == ev;
    assert RunFits(n, k, [] + [ev]);
    if OnlyFires(n, k) {
      OnlyFiresUnfold(n, k, [], j, now + BASE, now + BASE);
    }
  }

  lemma OnlyFiresUnfold(n: Net, k: nat, evs: seq<Event>, i: nat, now: int, later: int)
    requires OnlyFires(n, k) && RunFits(n, k, evs + [ThreadTurn(i, now, later)])
    requires i < |After(n, evs).timers| && Fires(After(n, evs).timers[i], now)
    ensures i == k
  {
  }

  /**
   * After a common byte the lowest address is the only one to generate on every timely run, if and only if
   * no other node was generating when the byte was a SYN.
   */
  lemma LowestAloneExactly(timers: seq<Timer>, k: nat, now: int, b: byte)
    requires HasLowest(timers, k)
    ensures OnlyFires(CommonByte(timers, now, b), k) <==>
            forall j :: 0 <= j < |timers| && j != k ==> !(timers[j].active && b == SYN)
  {
    hide OnlyFires, Elected, CommonByte;
    if j :| 0 <= j < |timers| && j != k && timers[j].active && b == SYN {
      PersistentFires(timers, k, now, b, j);
    } else {
      CommonByteStarts(timers, k, now, b);
      ElectedOnlyFires(CommonByte(timers, now, b), k);
    }
  }
}
