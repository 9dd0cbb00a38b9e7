/** The store behind the parking lot (`Storage`): an in-memory table of the
    numbered slots holding the vehicles now parked, and an append-only
    sequence of closed records standing in for the database of completed
    stays. */
module Storage {
  import opened Results

  /** A parked vehicle as the manager stores it in its slot. */
  datatype Vehicle = Vehicle(number: string, vtype: string, entryTime: int, slot: int, isVip: bool)

  /** The slot table: slot number to the vehicle in it, `None` when empty. */
  datatype SlotTable = SlotTable(total: nat, slots: map<int, Option<Vehicle>>)

  /** A completed stay as persisted on exit; times in seconds, fee in hundredths. */
  datatype ClosedRecord = ClosedRecord(number: string, vtype: string, entryTime: int, exitTime: int, slot: int, fee: int)

  const SecondsPerDay := 86400

  /** The table has exactly the slots `1..total`. The scans below visit
      only `1..total`, so they see every slot when this holds. In a lot the
      manager reaches, the keys are also exactly those the constructor
      inserted in ascending order, so Python's insertion-order iteration
      is ascending too. */
  ghost predicate Valid(t: SlotTable) {
    forall s :: s in t.slots <==> 1 <= s <= t.total
  }

  /** Slot `s` exists and holds a vehicle. */
  predicate Occupied(t: SlotTable, s: int) {
    s in t.slots && t.slots[s].Some?
  }

  /** Slot `s` exists and is empty. */
  predicate Empty(t: SlotTable, s: int) {
    s in t.slots && t.slots[s].None?
  }

  /** Slot `s` holds the vehicle with number `n`. */
  predicate Holds(t: SlotTable, s: int, n: string) {
    Occupied(t, s) && t.slots[s].value.number == n
  }

  /** Every stored vehicle records the slot it is stored in. */
  ghost predicate SlotsMatch(t: SlotTable) {
    forall s :: Occupied(t, s) ==> t.slots[s].value.slot == s
  }

  /** The slot dictionary of a fresh store: every slot from 1 to `n`, each empty. */
  function EmptySlots(n: nat): (m: map<int, Option<Vehicle>>)
    ensures forall s :: s in m <==> 1 <= s <= n
    ensures forall s :: s in m ==> m[s] == None
  {
    if n == 0 then map[] else EmptySlots(n - 1)[n := None]
  }

  /** The table of a fresh store: slots `1..total`, all empty. */
  function NewTable(total: nat): (t: SlotTable)
    ensures Valid(t)
    ensures t.total == total
    ensures forall s :: s in t.slots ==> t.slots[s] == None
  {
    SlotTable(total, EmptySlots(total))
  }

  /** `save_parked`: puts `v` into slot `slot`. */
  function SaveParked(t: SlotTable, slot: int, v: Vehicle): (r: SlotTable)
    ensures r.total == t.total
    ensures slot in r.slots && r.slots[slot] == Some(v)
    ensures forall s :: s != slot ==> (s in r.slots <==> s in t.slots)
    ensures forall s :: s != slot && s in t.slots ==> r.slots[s] == t.slots[s]
    ensures Valid(t) && 1 <= slot <= t.total ==> Valid(r)
  {
    t.(slots := t.slots[slot := Some(v)])
  }

  /** `remove_vehicle`: empties slot `slot`. */
  function RemoveVehicle(t: SlotTable, slot: int): (r: SlotTable)
    ensures r.total == t.total
    ensures slot in r.slots && r.slots[slot] == None
    ensures forall s :: s != slot ==> (s in r.slots <==> s in t.slots)
    ensures forall s :: s != slot && s in t.slots ==> r.slots[s] == t.slots[s]
    ensures Valid(t) && 1 <= slot <= t.total ==> Valid(r)
  {
    t.(slots := t.slots[slot := None])
  }

  /** The scan of `find_vehicle_slot` from slot `from` upwards. */
  function FindFrom(t: SlotTable, n: string, from: int): (r: Option<int>)
    requires Valid(t) && 1 <= from
    ensures r.Some? ==> from <= r.value <= t.total && Holds(t, r.value, n)
    ensures r.Some? ==> forall s :: from <= s < r.value ==> !Holds(t, s, n)
    ensures r.None? ==> forall s :: from <= s ==> !Holds(t, s, n)
    decreases t.total - from
  {
    if from > t.total then None
    else if Holds(t, from, n) then Some(from)
    else FindFrom(t, n, from + 1)
  }

  /** `find_vehicle_slot`: the lowest slot holding the vehicle numbered `n`,
      or `None` when no slot holds it. */
  function FindVehicleSlot(t: SlotTable, n: string): (r: Option<int>)
    requires Valid(t)
    ensures r.Some? ==> Holds(t, r.value, n) && forall s :: s < r.value ==> !Holds(t, s, n)
    ensures r.None? <==> forall s :: !Holds(t, s, n)
  {
    FindFrom(t, n, 1)
  }

  /** The vehicles in slots `from..total`, in ascending slot order. */
  function OccupiedFrom(t: SlotTable, from: int): (r: seq<Vehicle>)
    requires Valid(t) && 1 <= from
    ensures forall v :: v in r <==> exists s :: from <= s && Occupied(t, s) && t.slots[s].value == v
    ensures SlotsMatch(t) ==> forall i :: 0 <= i < |r| ==>
      from <= r[i].slot && Occupied(t, r[i].slot) && t.slots[r[i].slot].value == r[i]
    ensures SlotsMatch(t) ==> forall i, j :: 0 <= i < j < |r| ==> r[i].slot < r[j].slot
    decreases t.total - from
  {
    if from > t.total then []
    else if Occupied(t, from) then [t.slots[from].value] + OccupiedFrom(t, from + 1)
    else OccupiedFrom(t, from + 1)
  }

  /** `get_all_occupied`: every parked vehicle, in ascending slot order. */
  function AllOccupied(t: SlotTable): (r: seq<Vehicle>)
    requires Valid(t)
    ensures forall v :: v in r <==> exists s :: Occupied(t, s) && t.slots[s].value == v
    ensures SlotsMatch(t) ==> forall i :: 0 <= i < |r| ==> Occupied(t, r[i].slot) && t.slots[r[i].slot].value == r[i]
    ensures SlotsMatch(t) ==> forall i, j :: 0 <= i < j < |r| ==> r[i].slot < r[j].slot
  {
    OccupiedFrom(t, 1)
  }

  /** The number of occupied slots among `from..total`. */
  function CountOccupiedFrom(t: SlotTable, from: int): nat
    requires Valid(t) && 1 <= from
    decreases t.total - from
  {
    if from > t.total then 0
    else (if Occupied(t, from) then 1 else 0) + CountOccupiedFrom(t, from + 1)
  }

  /** The enumeration lists one vehicle per occupied slot. */
  lemma {:induction false} OccupiedFromLength(t: SlotTable, from: int)
    requires Valid(t) && 1 <= from
    ensures |OccupiedFrom(t, from)| == CountOccupiedFrom(t, from)
    decreases t.total - from
  {
    if from <= t.total {
      OccupiedFromLength(t, from + 1);
    }
  }

  /** Filling an empty slot adds one to the count of occupied slots at or
      above it, and leaves the count of any range not containing it alone. */
  lemma {:induction false} SaveParkedCount(t: SlotTable, slot: int, v: Vehicle, from: int)
    requires Valid(t) && 1 <= slot <= t.total && Empty(t, slot) && 1 <= from
    ensures CountOccupiedFrom(SaveParked(t, slot, v), from)
         == CountOccupiedFrom(t, from) + (if from <= slot then 1 else 0)
    decreases t.total - from
  {
    if from <= t.total {
      SaveParkedCount(t, slot, v, from + 1);
    }
  }

  /** Emptying an occupied slot removes one from the count of occupied slots
      at or above it. */
  lemma {:induction false} RemoveVehicleCount(t: SlotTable, slot: int, from: int)
    requires Valid(t) && 1 <= slot <= t.total && Occupied(t, slot) && 1 <= from
    ensures CountOccupiedFrom(RemoveVehicle(t, slot), from)
         == CountOccupiedFrom(t, from) - (if from <= slot then 1 else 0)
    decreases t.total - from
  {
    if from <= t.total {
      RemoveVehicleCount(t, slot, from + 1);
    }
  }

  /** The calendar day (days since the epoch, in the service's time zone) of a time. */
  function DayOf(time: int): int {
    time / SecondsPerDay
  }

  /** `persist_exit`: appends the closed record of `v`'s stay. */
  function PersistExit(store: seq<ClosedRecord>, v: Vehicle, fee: int, exitTime: int): (r: seq<ClosedRecord>)
    ensures |r| == |store| + 1
    ensures r[..|store|] == store
    ensures r[|store|] == ClosedRecord(v.number, v.vtype, v.entryTime, exitTime, v.slot, fee)
  {
    store + [ClosedRecord(v.number, v.vtype, v.entryTime, exitTime, v.slot, fee)]
  }

  /** `get_daily_records`: the persisted records whose exit falls on `day`,
      in storage order (`DailyRecordsExact` states which ones). */
  function DailyRecords(store: seq<ClosedRecord>, day: int): (r: seq<ClosedRecord>)
    ensures |r| <= |store|
    ensures forall i :: 0 <= i < |r| ==> DayOf(r[i].exitTime) == day
  {
    if |store| == 0 then []
    else DailyHead(store[0], day) + DailyRecords(store[1..], day)
  }

  /** The query returns exactly the stored records whose exit falls on
      `day`, each as often as it is stored. */
  lemma {:induction false} DailyRecordsExact(store: seq<ClosedRecord>, day: int)
    ensures forall x :: x in DailyRecords(store, day) <==> x in store && DayOf(x.exitTime) == day
    ensures forall x :: multiset(DailyRecords(store, day))[x]
                     == if DayOf(x.exitTime) == day then multiset(store)[x] else 0
  {
    if |store| > 0 {
      DailyRecordsExact(store[1..], day);
      assert store == [store[0]] + store[1..];
      assert multiset(store) == multiset{store[0]} + multiset(store[1..]);
    }
  }

  /** The part of the query contributed by one record. */
  function DailyHead(x: ClosedRecord, day: int): seq<ClosedRecord> {
    if DayOf(x.exitTime) == day then [x] else []
  }

  /** Querying commutes with concatenating stores. */
  lemma {:induction false} DailyRecordsConcat(a: seq<ClosedRecord>, b: seq<ClosedRecord>, day: int)
    ensures DailyRecords(a + b, day) == DailyRecords(a, day) + DailyRecords(b, day)
  {
    if |a| == 0 {
      assert a + b == b;
    } else {
      var rest := a[1..] + b;
      assert (a + b)[1..] == rest;
      assert (a + b)[0] == a[0];
      DailyRecordsConcat(a[1..], b, day);
      calc {
        DailyRecords(a + b, day);
        DailyHead(a[0], day) + DailyRecords(rest, day);
        DailyHead(a[0], day) + (DailyRecords(a[1..], day) + DailyRecords(b, day));
        (DailyHead(a[0], day) + DailyRecords(a[1..], day)) + DailyRecords(b, day);
        DailyRecords(a, day) + DailyRecords(b, day);
      }
    }
  }

  /** Persisting an exit adds its record to the query of its exit day and
      changes no other day's query. */
  lemma PersistExitDaily(store: seq<ClosedRecord>, v: Vehicle, fee: int, exitTime: int, day: int)
    ensures DailyRecords(PersistExit(store, v, fee, exitTime), day)
         == DailyRecords(store, day)
          + (if DayOf(exitTime) == day then [ClosedRecord(v.number, v.vtype, v.entryTime, exitTime, v.slot, fee)] else [])
  {
    var rec := ClosedRecord(v.number, v.vtype, v.entryTime, exitTime, v.slot, fee);
    DailyRecordsConcat(store, [rec], day);
    assert [rec][1..] == [];
  }
}
