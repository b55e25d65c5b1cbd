/** The device inventory: which slaves were seen, what they answered, what is still to be asked. */
module Devices {
  import opened Bytes

  const MAX_DEVICES := 16
  const VAILLANT: byte := 0xB5
  const IDENTIFICATION: seq<byte> := [0x07, 0x04, 0x00]

  /** The four vendor queries B5 09 01 24 to 27. */
  function VendorQuery(i: nat): seq<byte>
    requires i < 4
  {
    [0xB5, 0x09, 0x01, 0x24 + i]
  }

  /** `vendor` holds the four vendor answers, empty where still missing. */
  datatype Device = Device(slave: byte, identified: bool, messages: nat, id: seq<byte>, vendor: seq<seq<byte>>)

  const UNUSED := Device(0, false, 0, [], [[], [], [], []])

  function ScanCommand(slave: byte): seq<byte> {
    [slave] + IDENTIFICATION
  }

  function VendorCommand(slave: byte, i: nat): seq<byte>
    requires i < 4
  {
    [slave] + VendorQuery(i)
  }

  predicate MatchesAt(view: seq<byte>, pattern: seq<byte>, index: nat) {
    index + |pattern| <= |view| && view[index..index + |pattern|] == pattern
  }

  predicate Shaped(d: Device) {
    |d.vendor| == 4 && (d.identified <==> d.id != [])
  }

  function UpdateDevice(d: Device, slave: byte, master: seq<byte>, reply: seq<byte>): Device
    requires |d.vendor| == 4
  {
    var seen := d.(slave := slave, messages := (d.messages + 1) % 0x1_0000_0000);
    if reply == [] then seen
    else
      var stored :=
        if MatchesAt(master, IDENTIFICATION, 2) then seen.(id := reply)
        else if MatchesAt(master, VendorQuery(0), 2) then seen.(vendor := seen.vendor[0 := reply])
        else if MatchesAt(master, VendorQuery(1), 2) then seen.(vendor := seen.vendor[1 := reply])
        else if MatchesAt(master, VendorQuery(2), 2) then seen.(vendor := seen.vendor[2 := reply])
        else if MatchesAt(master, VendorQuery(3), 2) then seen.(vendor := seen.vendor[3 := reply])
        else seen;
      stored.(identified := stored.identified || stored.id != [])
  }

  predicate IsVaillant(d: Device) {
    |d.id| > 1 && d.id[1] == VAILLANT
  }

  /** A vendor answer is missing at or after position i. */
  predicate Pending(d: Device, i: nat) {
    IsVaillant(d) && exists j :: i <= j < 4 && j < |d.vendor| && d.vendor[j] == []
  }

  /** The tracked devices by address, and how much of the pool they use. */
  datatype Stock = Stock(devices: map<byte, Device>, used: nat)

  predicate AllShaped(stock: Stock) {
    forall a :: a in stock.devices ==> Shaped(stock.devices[a])
  }

  /** What seeing an address makes of the stock; a full pool takes no new device. */
  function Touch(stock: Stock, a: byte, master: seq<byte>, reply: seq<byte>): (r: Stock)
    requires AllShaped(stock)
    ensures AllShaped(r)
  {
    hide UpdateDevice;
    var known := a in stock.devices;
    var d := if known then stock.devices[a] else UNUSED;
    UpdateShapes(d, a, master, reply);
    if known || stock.used < MAX_DEVICES then
      Stock(stock.devices[a := UpdateDevice(d, a, master, reply)], stock.used + if known then 0 else 1)
    else stock
  }

  /** Our own slave is not tracked. */
  function Track(stock: Stock, own: byte, a: byte, master: seq<byte>, reply: seq<byte>): (r: Stock)
    requires AllShaped(stock)
    ensures AllShaped(r)
  {
    if a == SlaveOf(own) then stock else Touch(stock, a, master, reply)
  }

  /** A telegram tracks the slave of its source, then its target or the slave of it; only a slave has answered. */
  function Inventory(stock: Stock, own: byte, master: seq<byte>, reply: seq<byte>): Stock
    requires AllShaped(stock) && |master| >= 2
  {
    var source := if IsMaster(master[0]) then Track(stock, own, SlaveOf(master[0]), master, []) else stock;
    if IsMaster(master[1]) then Track(source, own, SlaveOf(master[1]), master, [])
    else if IsSlave(master[1]) then Track(source, own, master[1], master, reply)
    else source
  }

  /** The map is an injection into the used part of the pool, and each entry knows its own address. */
  ghost predicate Pooled(at: map<byte, nat>, pool: seq<Device>, used: nat) {
    && used <= MAX_DEVICES == |pool|
    && (forall a :: a in at ==> at[a] < used && pool[at[a]].slave == a)
    && (forall k :: 0 <= k < |pool| ==> Shaped(pool[k]))
    && (forall k :: used <= k < |pool| ==> pool[k] == UNUSED)
  }

  ghost function StockOf(at: map<byte, nat>, pool: seq<Device>, used: nat): Stock
    requires Pooled(at, pool, used)
  {
    Stock(map a | a in at :: pool[at[a]], used)
  }

  /** Storing at the index of a known address, or at the first unused index. */
  lemma StoreIsTouch(at: map<byte, nat>, pool: seq<Device>, used: nat, a: byte, master: seq<byte>, reply: seq<byte>)
    requires Pooled(at, pool, used) && (a in at || used < MAX_DEVICES)
    ensures AllShaped(StockOf(at, pool, used))
    ensures var i := if a in at then at[a] else used;
            var p := pool[i := UpdateDevice(pool[i], a, master, reply)];
            var n := if a in at then used else used + 1;
            Pooled(at[a := i], p, n) && StockOf(at[a := i], p, n) == Touch(StockOf(at, pool, used), a, master, reply)
  {
    hide UpdateDevice;
    var i := if a in at then at[a] else used;
    UpdateShapes(pool[i], a, master, reply);
  }

  class DeviceManager {
    const ownAddress: byte
    /** Whether there is a bus monitor; without one no observed address is recorded. */
    const monitored: bool
    /** Slave address to pool index; absent where the source stores -1. */
    var addressMap: map<byte, nat>
    var pool: seq<Device>
    var usage: nat
    var masters: set<byte>
    var slaves: set<byte>

    constructor (ownAddress: byte, monitored: bool)
      ensures Valid() && this.ownAddress == ownAddress && this.monitored == monitored
      ensures Contents() == Stock(map[], 0) && masters == {} && slaves == {} && ObservedSlaves() == {}
    {
      this.ownAddress, this.monitored := ownAddress, monitored;
      addressMap, usage := map[], 0;
      pool := seq(MAX_DEVICES, _ => UNUSED);
      masters, slaves := {}, {};
    }

    ghost predicate Valid()
      reads this
    {
      SlaveOf(ownAddress) !in addressMap && Pooled(addressMap, pool, usage)
    }

    /** The device at an address, if it has an entry. */
    function Lookup(a: byte): Option<Device>
      reads this
    {
      if a in addressMap && addressMap[a] < |pool| then Some(pool[addressMap[a]]) else None
    }

    ghost function Contents(): Stock
      reads this
      requires Valid()
    {
      StockOf(addressMap, pool, usage)
    }

    predicate IsIdentified(a: byte)
      reads this
    {
      Lookup(a).Some? && Lookup(a).value.identified
    }

    lemma LookupIsContent(a: byte)
      requires Valid()
      ensures Lookup(a) == if a in Contents().devices then Some(Contents().devices[a]) else None
    {
    }

    lemma PoolBounds()
      requires Valid()
      ensures usage <= MAX_DEVICES == |pool| && (forall a :: a in addressMap ==> addressMap[a] < usage)
      ensures forall k :: 0 <= k < |pool| ==> |pool[k].vendor| == 4
    {
    }

    lemma FullPoolTakesNothing(a: byte, master: seq<byte>, reply: seq<byte>)
      requires Valid() && AllShaped(Contents()) && a !in addressMap && usage >= MAX_DEVICES
      ensures Touch(Contents(), a, master, reply) == Contents()
    {
    }

    lemma ContentsShaped()
      requires Valid()
      ensures AllShaped(Contents())
    {
      hide SlaveOf;
    }

    /** One address was seen in a telegram; our own slave and addresses beyond the pool are not tracked. */
    method UpdateEntry(a: byte, master: seq<byte>, reply: seq<byte>)
      requires Valid()
      modifies this`addressMap, this`pool, this`usage
      ensures Valid() && AllShaped(old(Contents()))
      ensures Contents() == Track(old(Contents()), ownAddress, a, master, reply)
    {
      hide SlaveOf, UpdateDevice, Pooled, Touch;
      ContentsShaped();
      PoolBounds();
      if a == SlaveOf(ownAddress) {
        return;
      }
      if a !in addressMap && usage >= MAX_DEVICES {
        FullPoolTakesNothing(a, master, reply);
        return;
      }
      StoreIsTouch(addressMap, pool, usage, a, master, reply);
      var index := if a in addressMap then addressMap[a] else usage;
      if a !in addressMap {
        usage := usage + 1;
        addressMap := addressMap[a := index];
      }
      assert addressMap == old(addressMap)[a := index];
      pool := pool[index := UpdateDevice(pool[index], a, master, reply)];
    }

    /** The addresses seen in a telegram, recorded for the monitor. */
    method RecordObserved(master: seq<byte>)
      requires |master| >= 2
      modifies this`masters, this`slaves
      ensures masters == old(masters) + (if monitored then {master[0]} else {})
      ensures slaves == old(slaves) + (if monitored && IsSlave(master[1]) then {master[1]} else {})
      ensures var source := if master[0] != ownAddress then {SlaveOf(master[0])} else {};
              var target := if IsSlave(master[1]) && master[1] != SlaveOf(ownAddress) then {master[1]} else {};
              ObservedSlaves() == old(ObservedSlaves()) + (if monitored then source + target else {})
    {
      hide SlaveOf, IsSlave;
      if monitored {
        masters := masters + {master[0]};
        if IsSlave(master[1]) {
          slaves := slaves + {master[1]};
        }
      }
    }

    method Update(master: seq<byte>, reply: seq<byte>)
      requires Valid() && |master| >= 2
      modifies this
      ensures Valid() && AllShaped(old(Contents()))
      ensures masters == old(masters) + (if monitored then {master[0]} else {})
      ensures slaves == old(slaves) + (if monitored && IsSlave(master[1]) then {master[1]} else {})
      ensures Contents() == Inventory(old(Contents()), ownAddress, master, reply)
      ensures var source := if master[0] != ownAddress then {SlaveOf(master[0])} else {};
              var target := if IsSlave(master[1]) && master[1] != SlaveOf(ownAddress) then {master[1]} else {};
              ObservedSlaves() == old(ObservedSlaves()) + (if monitored then source + target else {})
    {
      hide SlaveOf, IsMaster, IsSlave, Touch, ObservedSlaves;
      ContentsShaped();
      RecordObserved(master);
      if IsMaster(master[0]) {
        UpdateEntry(SlaveOf(master[0]), master, []);
      }
      if IsMaster(master[1]) {
        UpdateEntry(SlaveOf(master[1]), master, []);
      } else if IsSlave(master[1]) {
        UpdateEntry(master[1], master, reply);
      }
    }

    /** Advances the cursor to just behind the first missing vendor answer at or after it. */
    method NextPendingVendorCommand(a: byte, cursor: nat) returns (found: bool, next: nat, cmd: seq<byte>)
      requires Valid()
      ensures found <==> Lookup(a).Some? && cursor < 4 && Pending(Lookup(a).value, cursor)
      ensures found ==> cursor < next <= 4 && cmd == VendorCommand(a, next - 1) && Lookup(a).value.vendor[next - 1] == []
      ensures found ==> forall j :: cursor <= j < next - 1 ==> Lookup(a).value.vendor[j] != []
      ensures !found ==> next == 4
    {
      if a in addressMap && cursor < 4 {
        var d := pool[addressMap[a]];
        if |d.id| > 1 && d.id[1] == VAILLANT {
          for i := cursor to 4
            invariant forall j :: cursor <= j < i ==> d.vendor[j] != []
          {
            if d.vendor[i] == [] {
              return true, i + 1, VendorCommand(d.slave, i);
            }
          }
        }
      }
      found, next, cmd := false, 4, [];
    }

    /** The first address from `start` on whose device misses a vendor answer. */
    method FindNextPendingVendorCommand(start: nat) returns (a: nat)
      requires Valid() && start <= 256
      ensures start <= a <= 256
      ensures a < 256 ==> Lookup(a).Some? && Pending(Lookup(a).value, 0)
      ensures forall b: byte :: start <= b < a ==> !(Lookup(b).Some? && Pending(Lookup(b).value, 0))
    {
      a := start;
      while a < 256
        invariant start <= a <= 256
        invariant forall b: byte :: start <= b < a ==> !(Lookup(b).Some? && Pending(Lookup(b).value, 0))
      {
        var found, next, cmd := NextPendingVendorCommand(a, 0);
        if found {
          return;
        }
        a := a + 1;
      }
    }

    /** Identified, and it or some later address still misses a vendor answer. */
    ghost predicate DeepScanNeeded(a: byte)
      reads this
    {
      IsIdentified(a) && exists b: byte :: b >= a && Lookup(b).Some? && Pending(Lookup(b).value, 0)
    }

    method NeedsDeepScan(a: byte) returns (r: bool)
      requires Valid()
      ensures r <==> DeepScanNeeded(a)
    {
      if !IsIdentified(a) {
        return false;
      }
      var b := FindNextPendingVendorCommand(a);
      r := b < 256;
      if r {
        ghost var c: byte := b;
        assert c >= a && Lookup(c).Some? && Pending(Lookup(c).value, 0);
      }
    }

    /** What the documentation says it means: the device itself is identified and not fully profiled. */
    ghost predicate LacksAnswers(a: byte)
      reads this
    {
      IsIdentified(a) && Lookup(a).Some? && Pending(Lookup(a).value, 0)
    }

    /** Some device behind the address lacks answers. */
    ghost predicate GapBehind(a: byte)
      reads this
    {
      exists b: byte :: b > a && Lookup(b).Some? && Pending(Lookup(b).value, 0)
    }

    /** The code does what is documented, except for a fully profiled device before one that is not. */
    lemma DocumentedDeepScan(a: byte)
      ensures (DeepScanNeeded(a) <==> LacksAnswers(a)) <==>
              !(IsIdentified(a) && !Pending(Lookup(a).value, 0) && GapBehind(a))
    {
      hide Pending;
    }

    /** Slaves of observed masters, and observed slaves, without ourselves. */
    function ObservedSlaves(): set<byte>
      reads this`masters, this`slaves
    {
      (set m | m in masters && m != ownAddress :: SlaveOf(m)) + (set s | s in slaves && s != SlaveOf(ownAddress))
    }
  }

  lemma UpdateShapes(d: Device, slave: byte, master: seq<byte>, reply: seq<byte>)
    requires Shaped(d)
    ensures Shaped(UpdateDevice(d, slave, master, reply)) && UpdateDevice(d, slave, master, reply).slave == slave
  {
    hide MatchesAt;
  }

  /** A non-empty answer to the identification query identifies the device for good, and nothing else does. */
  lemma IdentifiedByAnswer(d: Device, slave: byte, master: seq<byte>, reply: seq<byte>)
    requires Shaped(d)
    ensures UpdateDevice(d, slave, master, reply).identified <==>
            d.identified || (reply != [] && MatchesAt(master, IDENTIFICATION, 2))
  {
    hide MatchesAt;
  }

  /** Asking for a missing vendor answer and storing the reply removes exactly that gap. */
  lemma AnswerClosesGap(d: Device, master: seq<byte>, reply: seq<byte>, i: nat)
    requires Shaped(d) && i < 4 && reply != [] && |master| >= 6 && master[2..6] == VendorQuery(i)
    ensures var r := UpdateDevice(d, d.slave, master, reply);
            r.vendor == d.vendor[i := reply] && r.id == d.id && r.identified == d.identified
  {
    assert master[2..6][0] == master[2] && master[2..6][3] == master[5];
    assert !MatchesAt(master, IDENTIFICATION, 2) by {
      assert master[2..5][0] == master[2];
    }
    assert forall j :: 0 <= j < 4 && j != i ==> VendorQuery(j)[3] != master[5];
  }

  /** The slave address of a master, in numbers. */
  function Counterpart(master: byte): int {
    if master == 0xFF then 0x04 else master + 5
  }

  lemma CounterpartIsSlave(master: byte)
    requires IsMaster(master)
    ensures SlaveOf(master) == Counterpart(master)
  {
    SlaveOfMaster(master);
  }

  /** Whether a telegram shows that the slave at this address, which is not ours, is there. */
  predicate ShowsSource(own: byte, master: seq<byte>, a: byte)
    requires |master| >= 2
  {
    IsMaster(master[0]) && a == Counterpart(master[0]) && a != Counterpart(own)
  }

  predicate ShowsTarget(own: byte, master: seq<byte>, a: byte)
    requires |master| >= 2
  {
    a != Counterpart(own) && if IsMaster(master[1]) then a == Counterpart(master[1]) else IsSlave(master[1]) && a == master[1]
  }

  /**
   * Which devices a telegram changes, and how: those it shows; each showing counts one message; the reply
   * is stored with the target only, and only if the target is a slave. With a full pool nothing is added.
   */
  lemma InventoryExactly(stock: Stock, own: byte, master: seq<byte>, reply: seq<byte>, a: byte)
    requires AllShaped(stock) && |master| >= 2 && IsMaster(own)
    ensures var r := Inventory(stock, own, master, reply);
            var s, t := ShowsSource(own, master, a), ShowsTarget(own, master, a);
            var answer := if IsSlave(master[1]) then reply else [];
            && (a in stock.devices ==> a in r.devices)
            && (a in stock.devices && !s && !t ==> r.devices[a] == stock.devices[a])
            && (a !in stock.devices && !s && !t ==> a !in r.devices)
            && (a !in stock.devices && (s || t) && stock.used + 2 <= MAX_DEVICES ==> a in r.devices)
            && (a !in stock.devices && stock.used >= MAX_DEVICES ==> a !in r.devices)
            && (a in r.devices && (s || t) ==>
                  var d := if a in stock.devices then stock.devices[a] else UNUSED;
                  && (s && !t ==> r.devices[a] == Seen(d, a))
                  && (!s && t ==> r.devices[a] == UpdateDevice(d, a, master, answer)))
  {
    hide UpdateDevice, IsMaster, IsSlave, SlaveOf;
    CounterpartIsSlave(own);
    if IsMaster(master[0]) {
      CounterpartIsSlave(master[0]);
    }
    if IsMaster(master[1]) {
      CounterpartIsSlave(master[1]);
    }
    var d := if a in stock.devices then stock.devices[a] else UNUSED;
    SeenWithoutAnswer(d, a, master);
    NoMasterIsSlave(master[1]);
  }

  lemma NoMasterIsSlave(b: byte)
    ensures IsMaster(b) ==> !IsSlave(b)
  {
  }

  /** The device with one more message and nothing new known of it. */
  function Seen(d: Device, a: byte): Device {
    Device(a, d.identified, (d.messages + 1) % 0x1_0000_0000, d.id, d.vendor)
  }

  lemma SeenWithoutAnswer(d: Device, a: byte, master: seq<byte>)
    requires |d.vendor| == 4
    ensures UpdateDevice(d, a, master, []) == Seen(d, a)
  {
  }

  /** The answer to our own identification query enters the stock under the address asked. */
  lemma AnswerIsStored(stock: Stock, own: byte, a: byte, reply: seq<byte>)
    requires AllShaped(stock) && stock.used < MAX_DEVICES && a !in stock.devices
    requires IsMaster(own) && IsSlave(a) && a != SlaveOf(own) && reply != []
    ensures var d := Device(a, true, 1, reply, UNUSED.vendor);
            Inventory(stock, own, [own] + ScanCommand(a), reply) == Stock(stock.devices[a := d], stock.used + 1)
  {
    hide SlaveOf, IsMaster;
    var master := [own] + ScanCommand(a);
    assert master[2..5] == IDENTIFICATION;
  }

  /**
   * A concrete case: a device that is no Vaillant, so that nothing more can be asked of it, and behind it
   * one that lacks its vendor answers.
   */
  method ProfiledDeviceIsRequeued() returns (manager: DeviceManager, a: byte)
    ensures fresh(manager) && manager.Valid()
    ensures manager.IsIdentified(a) && !manager.LacksAnswers(a) && manager.DeepScanNeeded(a)
  {
    hide Inventory, UNUSED, DeviceManager.Valid, DeviceManager.Contents, DeviceManager.Lookup;
    var own, b: byte, plain, vaillant := 0x31, 0x15, [0x02, 0x19], [0x02, VAILLANT];
    a := 0x08;
    manager := new DeviceManager(own, true);
    AnswerIsStored(Stock(map[], 0), own, a, plain);
    manager.Update([own] + ScanCommand(a), plain);
    manager.ContentsShaped();
    AnswerIsStored(manager.Contents(), own, b, vaillant);
    manager.Update([own] + ScanCommand(b), vaillant);
    manager.LookupIsContent(a);
    manager.LookupIsContent(b);
    VaillantLacksAnswers(manager.Lookup(b).value);
  }

  lemma VaillantLacksAnswers(d: Device)
    requires IsVaillant(d) && d.vendor == UNUSED.vendor
    ensures Pending(d, 0)
  {
    assert d.vendor[0] == [];
  }
}
