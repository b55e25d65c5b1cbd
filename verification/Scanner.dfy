/** The scanner: which device to ask next, with cooldown and quarantine for those that do not answer. */
module Scanner {
  import opened Bytes
  import opened Devices

  /** No deep scan in progress. */
  const NO_ADDRESS := 256
  const ATTEMPT_LIMIT := 10

  /** Thirty minutes, in milliseconds. */
  const EPOCH := 1_800_000

  class DeviceScanner {
    const manager: DeviceManager
    const ownAddress: byte

    var pending: set<byte>
    var failed: set<byte>
    var quarantined: set<byte>
    var attempts: map<byte, nat>

    var lastFailureReset: int
    var cooldown: int
    var lastScanAttempt: int

    var fullScan: bool
    var fullScanAddress: nat

    var scanOnStartup: bool
    var startupScans: nat
    var maxStartupScans: nat
    var nextStartupScan: int
    var startupInterval: int

    var current: nat
    var vendorCursor: nat

    constructor (ownAddress: byte, manager: DeviceManager)
      requires manager.Valid() && manager.ownAddress == ownAddress
      ensures Valid() && this.manager == manager && this.ownAddress == ownAddress
      ensures pending == {} && failed == {} && quarantined == {} && !fullScan && !scanOnStartup
      ensures cooldown == 60 * 1000 && maxStartupScans == 5 && startupInterval == 60 * 1000
    {
      this.manager, this.ownAddress := manager, ownAddress;
      pending, failed, quarantined, attempts := {}, {}, {}, map[];
      lastFailureReset, cooldown, lastScanAttempt := 0, 60_000, 0;
      fullScan, fullScanAddress := false, 0;
      scanOnStartup, startupScans, maxStartupScans := false, 0, 5;
      nextStartupScan, startupInterval := 0, 60_000;
      current, vendorCursor := NO_ADDRESS, 0;
    }

    /** We never queue our own slave, and no address collects ten attempts without being quarantined. */
    ghost predicate Valid()
      reads this, manager
    {
      && manager.Valid() && manager.ownAddress == ownAddress
      && current <= NO_ADDRESS && fullScanAddress <= NO_ADDRESS
      && SlaveOf(ownAddress) !in pending && SlaveOf(ownAddress) != current
      && (forall a :: a in attempts ==> attempts[a] < ATTEMPT_LIMIT)
    }

    function Attempts(a: byte): nat
      reads this
    {
      if a in attempts then attempts[a] else 0
    }

    /** An address that may be asked now. */
    predicate Askable(a: byte)
      reads this`failed, this`quarantined
    {
      a != SlaveOf(ownAddress) && a !in failed && a !in quarantined
    }

    /** The identification query for an unidentified device, or a vendor query for an answer still missing. */
    ghost predicate Useful(a: byte, cmd: seq<byte>)
      reads manager
    {
      || (!manager.IsIdentified(a) && cmd == ScanCommand(a))
      || (manager.IsIdentified(a) && manager.Lookup(a).Some? &&
          exists i :: 0 <= i < 4 && i < |manager.Lookup(a).value.vendor| &&
            manager.Lookup(a).value.vendor[i] == [] && cmd == VendorCommand(a, i))
    }

    /** Manual and observed scans lift cooldown and quarantine of an address that was not already queued. */
    method ScanAddress(a: byte) returns (added: bool)
      requires Valid()
      modifies this`pending, this`failed, this`quarantined
      ensures Valid() && added == (a != SlaveOf(ownAddress))
      ensures pending == old(pending) + (if added then {a} else {})
      ensures failed == if added && a !in old(pending) then old(failed) - {a} else old(failed)
      ensures quarantined == if added && a !in old(pending) then old(quarantined) - {a} else old(quarantined)
    {
      hide SlaveOf;
      if a == SlaveOf(ownAddress) {
        return false;
      }
      if a in pending {
        return true;
      }
      pending := pending + {a};
      failed := failed - {a};
      quarantined := quarantined - {a};
      added := true;
    }

    method ScanObservedDevices() returns (added: bool)
      requires Valid()
      modifies this`pending, this`failed, this`quarantined
      ensures Valid()
      ensures pending == old(pending) + (manager.ObservedSlaves() - {SlaveOf(ownAddress)})
      ensures added <==> manager.ObservedSlaves() - {SlaveOf(ownAddress)} != {}
      ensures failed == old(failed) - (pending - old(pending)) && quarantined == old(quarantined) - (pending - old(pending))
    {
      hide SlaveOf;
      var observed := manager.ObservedSlaves();
      hide DeviceManager.ObservedSlaves;
      added := false;
      ghost var done: set<byte> := {};
      for i := 0 to 256
        invariant Valid()
        invariant failed == old(failed) - (pending - old(pending))
        invariant quarantined == old(quarantined) - (pending - old(pending))
        invariant done == set a: byte | a in observed && a < i
        invariant pending == old(pending) + (done - {SlaveOf(ownAddress)})
        invariant added <==> done - {SlaveOf(ownAddress)} != {}
      {
        if i in observed {
          var one := ScanAddress(i);
          done := done + {i};
          if one {
            assert i in done - {SlaveOf(ownAddress)};
            added := true;
          }
        }
      }
      assert done == observed;
    }

    /** Ten attempts without being fully profiled, or ten failures, put an address into quarantine. */
    method OnScanResult(a: byte, success: bool)
      requires Valid()
      modifies this`pending, this`failed, this`quarantined, this`attempts
      ensures Valid()
      ensures var last := old(Attempts(a)) + 1 >= 10;
              var deeper := success && manager.DeepScanNeeded(a);
              && failed == (if success then old(failed) - {a} else old(failed) + {a})
              && pending == old(pending) + (if deeper && !last then {a} else {})
              && quarantined == old(quarantined) + (if last && (deeper || !success) then {a} else {})
              && Attempts(a) == (if !last && (deeper || !success) then old(Attempts(a)) + 1 else 0)
      ensures forall b :: b != a ==> Attempts(b) == old(Attempts(b))
    {
      hide SlaveOf, DeviceManager.DeepScanNeeded;
      var n := Attempts(a) + 1;
      if !success {
        failed := failed + {a};
        attempts := attempts[a := n];
        if n >= ATTEMPT_LIMIT {
          quarantined := quarantined + {a};
          attempts := attempts[a := 0];
        }
      } else {
        failed := failed - {a};
        var deeper := manager.NeedsDeepScan(a);
        if deeper {
          OwnSlaveIsUntracked(a);
          attempts := attempts[a := n];
          if n < ATTEMPT_LIMIT {
            pending := pending + {a};
          } else {
            quarantined := quarantined + {a};
            attempts := attempts[a := 0];
          }
        } else {
          attempts := attempts[a := 0];
        }
      }
    }

    lemma OwnSlaveIsUntracked(a: byte)
      requires manager.Valid() && manager.ownAddress == ownAddress && manager.DeepScanNeeded(a)
      ensures a != SlaveOf(ownAddress)
    {
      hide SlaveOf;
    }

    /** Cooldowns end in batches; after half an hour without a scan everything is forgiven; nothing else changes. */
    method ForgiveOldFailures(now: int)
      requires Valid()
      modifies this`failed, this`quarantined, this`attempts, this`lastFailureReset
      ensures Valid()
      ensures var idle := now - lastScanAttempt > 30 * 60 * 1000;
              var cooled := old(failed) != {} && now - old(lastFailureReset) > cooldown;
              && failed == (if cooled || idle then {} else old(failed))
              && quarantined == (if idle then {} else old(quarantined))
              && attempts == (if idle then map[] else old(attempts))
              && lastFailureReset == (if cooled then now else old(lastFailureReset))
    {
      if failed != {} && now - lastFailureReset > cooldown {
        failed := {};
        lastFailureReset := now;
      }
      if now - lastScanAttempt > EPOCH {
        failed, quarantined, attempts := {}, {}, map[];
      }
    }

    method LowestPending() returns (a: nat)
      requires pending != {}
      ensures a < 256 && a in pending && forall b :: b in pending ==> a <= b
    {
      ghost var some :| some in pending;
      a := 0;
      while a !in pending
        invariant 0 <= a <= some
        invariant forall b :: b in pending ==> a <= b
        decreases some - a
      {
        a := a + 1;
      }
    }

    /** The lowest queued address becomes the current one. */
    method TakePending()
      requires Valid() && pending != {}
      modifies this`pending, this`current, this`vendorCursor
      ensures Valid() && current < NO_ADDRESS && vendorCursor == 0
      ensures current in old(pending) && pending == old(pending) - {current}
      ensures forall b :: b in old(pending) ==> current <= b
      ensures |pending| == old(|pending|) - 1
    {
      var taken := LowestPending();
      assert |pending - {taken}| == |pending| - 1;
      current, vendorCursor, pending := taken, 0, pending - {taken};
    }

    /** Nothing is left to ask of the address, or it must not be asked. */
    ghost predicate Settled(a: byte)
      reads this`failed, this`quarantined, manager
    {
      a in failed || a in quarantined || (manager.IsIdentified(a) && !manager.LacksAnswers(a))
    }

    /** The current address: its next query, or on to the next address. */
    method TryCurrent(now: int) returns (cmd: seq<byte>)
      requires Valid() && current < NO_ADDRESS
      modifies this`current, this`vendorCursor, this`lastScanAttempt
      ensures Valid() && (current == NO_ADDRESS || current == old(current))
      ensures cmd != [] ==> cmd[0] == old(current) && Askable(cmd[0]) && Useful(cmd[0], cmd) && lastScanAttempt == now
      ensures cmd == [] ==> current == NO_ADDRESS && lastScanAttempt == old(lastScanAttempt)
      ensures cmd == [] && old(vendorCursor) == 0 ==> Settled(old(current))
    {
      hide SlaveOf;
      var a: byte := current;
      if a in failed || a in quarantined {
        current := NO_ADDRESS;
        return [];
      }
      if !manager.IsIdentified(a) {
        lastScanAttempt := now;
        current := NO_ADDRESS;
        return ScanCommand(a);
      }
      var found, next, query := manager.NextPendingVendorCommand(a, vendorCursor);
      vendorCursor := next;
      if found {
        lastScanAttempt := now;
        assert manager.Lookup(a).value.vendor[next - 1] == [] && query == VendorCommand(a, next - 1);
        return query;
      }
      current := NO_ADDRESS;
      cmd := [];
    }

    /**
     * Priority 1: the addresses queued for full identification. A queued address leaves the queue only when
     * it is asked or settled.
     */
    method DeepScan(now: int) returns (cmd: seq<byte>)
      requires Valid()
      modifies this`pending, this`current, this`vendorCursor, this`lastScanAttempt
      ensures Valid() && pending <= old(pending)
      ensures cmd != [] ==> Askable(cmd[0]) && Useful(cmd[0], cmd) && lastScanAttempt == now
      ensures cmd != [] ==> cmd[0] == old(current) || cmd[0] in old(pending)
      ensures cmd == [] ==> pending == {} && current == NO_ADDRESS && lastScanAttempt == old(lastScanAttempt)
      ensures forall b: byte :: b in old(pending) - pending && (cmd == [] || b != cmd[0]) ==> Settled(b)
    {
      hide SlaveOf, Askable, Useful, Settled;
      cmd := [];
      while current < NO_ADDRESS || pending != {}
        invariant Valid() && cmd == [] && pending <= old(pending) && lastScanAttempt == old(lastScanAttempt)
        invariant current < NO_ADDRESS ==> current == old(current) || current in old(pending)
        invariant current < NO_ADDRESS && current in old(pending) - pending ==> vendorCursor == 0
        invariant forall b: byte :: b in old(pending) - pending && b != current ==> Settled(b)
        decreases 2 * |pending| + (if current < NO_ADDRESS then 1 else 0)
      {
        if current == NO_ADDRESS {
          TakePending();
        }
        cmd := TryCurrent(now);
        if cmd != [] {
          return;
        }
      }
    }

    /** Priority 3: while allowed, and when it is time, all observed devices are queued. */
    method StartupScan(now: int) returns (again: bool)
      requires Valid()
      modifies this`pending, this`failed, this`quarantined, this`scanOnStartup, this`startupScans, this`nextStartupScan
      ensures Valid()
      ensures var due := old(scanOnStartup) && now >= old(nextStartupScan);
              var queue := due && old(startupScans) < maxStartupScans;
              var found := manager.ObservedSlaves() - {SlaveOf(ownAddress)};
              && again == (queue && found != {})
              && pending == (if queue then old(pending) + found else old(pending))
              && failed == old(failed) - (pending - old(pending))
              && quarantined == old(quarantined) - (pending - old(pending))
              && startupScans == (if queue then old(startupScans) + 1 else old(startupScans))
              && nextStartupScan == (if queue then now + startupInterval else old(nextStartupScan))
              && scanOnStartup == (old(scanOnStartup) && (due ==> queue))
    {
      hide SlaveOf, DeviceManager.ObservedSlaves;
      again := false;
      if scanOnStartup && now >= nextStartupScan {
        if startupScans >= maxStartupScans {
          scanOnStartup := false;
        } else {
          again := ScanObservedDevices();
          startupScans := startupScans + 1;
          nextStartupScan := now + startupInterval;
        }
      }
    }

    /** Every slave address of the range is identified or must not be asked. */
    ghost predicate NoneLeft(from: nat, to: nat)
      reads this`failed, this`quarantined, manager
    {
      forall a: byte :: from <= a < to && IsSlave(a) && Askable(a) ==> manager.IsIdentified(a)
    }

    /** Priority 2: every slave address once; none that may be asked and is unidentified is skipped. */
    method SurfaceScan(now: int) returns (cmd: seq<byte>)
      requires Valid()
      modifies this`fullScan, this`fullScanAddress, this`lastScanAttempt
      ensures Valid()
      ensures cmd != [] ==> Askable(cmd[0]) && Useful(cmd[0], cmd) && IsSlave(cmd[0]) && !manager.IsIdentified(cmd[0])
      ensures cmd == [] ==> !fullScan && lastScanAttempt == old(lastScanAttempt)
      ensures cmd != [] ==> old(fullScan) && fullScan && old(fullScanAddress) <= cmd[0] && fullScanAddress == cmd[0] + 1
      ensures old(fullScan) ==> NoneLeft(old(fullScanAddress), if cmd != [] then cmd[0] else 256)
    {
      hide SlaveOf, IsSlave;
      cmd := [];
      if fullScan {
        while fullScanAddress < 256
          invariant Valid() && fullScan && old(fullScanAddress) <= fullScanAddress
          invariant lastScanAttempt == old(lastScanAttempt)
          invariant NoneLeft(old(fullScanAddress), fullScanAddress)
        {
          var a: byte := fullScanAddress;
          fullScanAddress := fullScanAddress + 1;
          if !IsSlave(a) || a == SlaveOf(ownAddress) {
            continue;
          }
          if a in failed || a in quarantined {
            continue;
          }
          if !manager.IsIdentified(a) {
            lastScanAttempt := now;
            return ScanCommand(a);
          }
        }
        fullScan := false;
      }
    }

    /** One turn of the loop: forgive, then the three priorities; `again` if a startup scan queued something. */
    method Turn(now: int, load: bool) returns (cmd: seq<byte>, again: bool)
      requires Valid()
      modifies this
      ensures Valid() && maxStartupScans == old(maxStartupScans) && cooldown == old(cooldown)
      ensures cmd != [] ==> Askable(cmd[0]) && Useful(cmd[0], cmd)
      ensures cmd != [] && cmd[0] != old(current) && cmd[0] !in old(pending) ==> pending == {} && !load && old(fullScan)
      ensures again ==> cmd == [] && startupScans > old(startupScans)
      ensures cmd == [] ==> lastScanAttempt == old(lastScanAttempt)
      ensures cmd == [] && !again ==> pending == {} && current == NO_ADDRESS && (load || !fullScan)
      ensures startupScans == old(startupScans) ||
              (startupScans == old(startupScans) + 1 <= maxStartupScans && old(scanOnStartup))
      ensures scanOnStartup ==> old(scanOnStartup)
      ensures var idle := now - old(lastScanAttempt) > 30 * 60 * 1000;
              var cooled := old(failed) != {} && now - old(lastFailureReset) > cooldown;
              && (cooled || idle ==> failed == {}) && (idle ==> quarantined == {} && attempts == map[])
              && (!cooled ==> lastFailureReset == old(lastFailureReset))
              && failed <= old(failed) && quarantined <= old(quarantined) && (!idle ==> attempts == old(attempts))
              && (!cooled && !idle ==> forall b :: b in old(failed) - failed ==> Lifted(b) && startupScans > old(startupScans))
              && (!idle ==> forall b :: b in old(quarantined) - quarantined ==> Lifted(b) && startupScans > old(startupScans))
    {
      hide SlaveOf, Askable, Useful, DeviceManager.ObservedSlaves;
      again := false;
      ForgiveOldFailures(now);
      cmd := DeepScan(now);
      if cmd != [] || load {
        return;
      }
      cmd := SurfaceScan(now);
      if cmd != [] {
        return;
      }
      again := StartupScan(now);
    }

    /** A startup scan queues the address. */
    ghost predicate Lifted(a: byte)
      reads manager
    {
      a in manager.ObservedSlaves()
    }

    /** No turn of the clock is late enough for a cooldown or a quarantine to end. */
    ghost predicate TooEarly(clock: nat -> int, reset: int, attempt: int)
      reads this`cooldown
    {
      forall t :: clock(t) - reset <= cooldown && clock(t) - attempt <= 30 * 60 * 1000
    }

    /**
     * The next command, if any. `clock` and `busy` give the time and the load at each turn of the loop.
     * It always ends, never asks ourselves or an address in cooldown or quarantine, and only what is
     * still unknown; it returns nothing only when no deep scan is left. Cooldown and quarantine last: before
     * their time is over, an address in either is not asked unless a startup scan has queued it anew.
     */
    method NextCommand(clock: nat -> int, busy: nat -> bool) returns (cmd: seq<byte>)
      requires Valid()
      modifies this
      ensures Valid()
      ensures cmd != [] ==>
                var a := cmd[0];
                && a != SlaveOf(ownAddress) && a !in failed && a !in quarantined
                && (if manager.IsIdentified(a) then
                      manager.Lookup(a).Some? &&
                      exists i :: 0 <= i < 4 && i < |manager.Lookup(a).value.vendor| &&
                        manager.Lookup(a).value.vendor[i] == [] && cmd == [a, 0xB5, 0x09, 0x01, 0x24 + i]
                    else cmd == [a, 0x07, 0x04, 0x00])
      ensures cmd == [] ==> pending == {} && current == NO_ADDRESS
      ensures cmd == [] && (forall t :: !busy(t)) ==> !fullScan
      ensures startupScans > old(startupScans) ==> old(scanOnStartup) && startupScans <= maxStartupScans
      ensures TooEarly(clock, old(lastFailureReset), old(lastScanAttempt)) && cmd != [] &&
              (cmd[0] in old(failed) || cmd[0] in old(quarantined)) ==>
                cmd[0] in manager.ObservedSlaves() && startupScans > old(startupScans)
      ensures old(failed) != {} && clock(0) - old(lastFailureReset) > cooldown ==> failed == {}
      ensures clock(0) - old(lastScanAttempt) > 30 * 60 * 1000 ==> failed == {} && quarantined == {} && attempts == map[]
    {
      hide SlaveOf, Askable, Useful, DeviceManager.ObservedSlaves, TooEarly;
      var turn := 0;
      ghost var early := TooEarly(clock, lastFailureReset, lastScanAttempt);
      while true
        invariant Valid() && maxStartupScans == old(maxStartupScans) && cooldown == old(cooldown)
        invariant lastScanAttempt == old(lastScanAttempt) && startupScans >= old(startupScans)
        invariant early ==> lastFailureReset == old(lastFailureReset)
        invariant startupScans > old(startupScans) ==> old(scanOnStartup) && startupScans <= maxStartupScans
        invariant scanOnStartup ==> old(scanOnStartup)
        invariant early ==> forall b :: b in old(failed) - failed ==> Lifted(b) && startupScans > old(startupScans)
        invariant early ==> forall b :: b in old(quarantined) - quarantined ==> Lifted(b) && startupScans > old(startupScans)
        invariant turn > 0 && old(failed) != {} && clock(0) - old(lastFailureReset) > cooldown ==> failed == {}
        invariant turn > 0 && clock(0) - old(lastScanAttempt) > 30 * 60 * 1000 ==>
                    failed == {} && quarantined == {} && attempts == map[]
        invariant turn == 0 ==> failed == old(failed) && lastFailureReset == old(lastFailureReset)
        decreases if maxStartupScans > startupScans then maxStartupScans - startupScans else 0
      {
        if early {
          EarlyNow(clock, lastFailureReset, lastScanAttempt, turn);
        }
        ghost var f, q := failed, quarantined;
        var again;
        cmd, again := Turn(clock(turn), busy(turn));
        assert forall b :: b in old(failed) - failed ==> b in old(failed) - f || b in f - failed;
        assert forall b :: b in old(quarantined) - quarantined ==> b in old(quarantined) - q || b in q - quarantined;
        if cmd != [] {
          Asked(cmd);
          assert cmd[0] in old(failed) ==> cmd[0] in old(failed) - failed;
          assert cmd[0] in old(quarantined) ==> cmd[0] in old(quarantined) - quarantined;
        }
        if !again {
          break;
        }
        turn := turn + 1;
      }
    }

    lemma EarlyNow(clock: nat -> int, reset: int, attempt: int, t: nat)
      requires TooEarly(clock, reset, attempt)
      ensures clock(t) - reset <= cooldown && clock(t) - attempt <= 30 * 60 * 1000
    {
    }

    /** What an askable address and a useful command mean, spelled out. */
    lemma Asked(cmd: seq<byte>)
      requires cmd != [] && Askable(cmd[0]) && Useful(cmd[0], cmd)
      ensures var a := cmd[0];
              && a != SlaveOf(ownAddress) && a !in failed && a !in quarantined
              && (if manager.IsIdentified(a) then
                    manager.Lookup(a).Some? &&
                    exists i :: 0 <= i < 4 && i < |manager.Lookup(a).value.vendor| &&
                      manager.Lookup(a).value.vendor[i] == [] && cmd == [a, 0xB5, 0x09, 0x01, 0x24 + i]
                  else cmd == [a, 0x07, 0x04, 0x00])
    {
      hide SlaveOf;
    }
  }
}
