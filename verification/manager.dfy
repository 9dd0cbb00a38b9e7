/** The parking manager (`ParkingManager`): slot selection with VIP
    preference, parking and exit, the status view and the daily summary.

    The manager is a state machine over a `Lot`. Every operation is a pure
    function returning the next lot together with its result; an operation
    that raises in the Python code returns `Err` and the lot it was given. The
    clock is the explicit `now` argument (seconds). */
module Manager {
  import opened Results
  import opened IntSets
  import opened Billing
  import opened Storage

  /** The manager's state: the configured VIP slot numbers, the slot table
      of parked vehicles, and the store of closed records. */
  datatype Lot = Lot(vipSlots: set<int>, table: SlotTable, store: seq<ClosedRecord>)

  datatype ParkError = AlreadyParked(slot: int) | ParkingFull

  datatype ExitError = VehicleNotFound | InvalidInterval

  /** The lot after an operation, with what the operation returned or raised. */
  datatype Step<+T, +E> = Step(lot: Lot, result: Result<T, E>)

  /** What `exit_vehicle` returns for a vehicle that left. */
  datatype Receipt = Receipt(number: string, vtype: string, entry: int, exit: int, slot: int, fee: int, charge: Breakdown)

  /** What `current_status` returns. */
  datatype Status = Status(
    totalSlots: nat,
    occupiedCount: nat,
    freeCount: nat,
    freeSlots: seq<int>,
    occupied: seq<Vehicle>,
    vipSlots: seq<int>)

  /** One row of a daily summary; `exit` is `None` for a vehicle still parked. */
  datatype Row = Row(number: string, vtype: string, entry: int, exit: Option<int>, slot: int, fee: int)

  /** What `daily_revenue_summary` returns. */
  datatype Summary = Summary(day: int, totalVehicles: nat, totalRevenue: int, rows: seq<Row>)

  /** No two parked vehicles share a number. */
  ghost predicate UniqueNumbers(t: SlotTable) {
    forall a, b :: Occupied(t, a) && Occupied(t, b) && t.slots[a].value.number == t.slots[b].value.number ==> a == b
  }

  /** The invariant every reachable lot keeps. */
  ghost predicate Inv(l: Lot) {
    Valid(l.table) && SlotsMatch(l.table) && UniqueNumbers(l.table)
  }

  /** The configuration names only VIP slots that exist in the lot. */
  ghost predicate VipInLot(l: Lot) {
    forall s :: s in l.vipSlots ==> 1 <= s <= l.table.total
  }

  /** The manager's settings; `None` is a missing key. */
  datatype LotSettings = LotSettings(totalSlots: Option<nat>, vipSlots: Option<set<int>>)

  /** The manager's constructor: empty slots over an existing store. A
      missing slot count defaults to 24 and missing VIP slots to none. */
  function NewLot(s: LotSettings, store: seq<ClosedRecord>): (l: Lot)
    ensures Inv(l)
    ensures l.store == store
    ensures s.totalSlots.None? ==> l.table.total == 24
    ensures s.totalSlots.Some? ==> l.table.total == s.totalSlots.value
    ensures s.vipSlots.None? ==> l.vipSlots == {}
    ensures s.vipSlots.Some? ==> l.vipSlots == s.vipSlots.value
    ensures forall n :: 1 <= n <= l.table.total ==> Empty(l.table, n)
  {
    var total := if s.totalSlots.Some? then s.totalSlots.value else 24;
    var vip := if s.vipSlots.Some? then s.vipSlots.value else {};
    Lot(vip, NewTable(total), store)
  }

  // ---------------------------------------------------------------------------
  // Slot selection
  // ---------------------------------------------------------------------------

  /** The general scan: the lowest empty slot among `from..total`. */
  function FirstEmptyFrom(t: SlotTable, from: int): (r: Option<int>)
    requires Valid(t) && 1 <= from
    ensures r.Some? ==> from <= r.value && Empty(t, r.value)
    ensures r.Some? ==> forall s :: from <= s < r.value ==> !Empty(t, s)
    ensures r.None? ==> forall s :: from <= s ==> !Empty(t, s)
    decreases t.total - from
  {
    if from > t.total then None
    else if Empty(t, from) then Some(from)
    else FirstEmptyFrom(t, from + 1)
  }

  /** The VIP slot numbers that `slots.get(s) is None` reports as free: the
      empty ones, and also those the lot does not have at all. */
  function VipReportedFree(l: Lot): (r: set<int>)
    ensures forall s :: s in r <==> s in l.vipSlots && !Occupied(l.table, s)
  {
    set s | s in l.vipSlots && !Occupied(l.table, s)
  }

  /** The VIP slots that exist and are empty. */
  function VipFree(l: Lot): (r: set<int>)
    ensures forall s :: s in r <==> s in l.vipSlots && Empty(l.table, s)
  {
    set s | s in l.vipSlots && Empty(l.table, s)
  }

  /** `find_next_free_slot` exactly as written: a VIP number missing from the
      slot table counts as free. */
  function FindNextFreeSlotAsWritten(l: Lot, preferVip: bool := false): (r: Option<int>)
    requires Valid(l.table)
    ensures r.Some? ==> !Occupied(l.table, r.value)
    ensures preferVip && VipReportedFree(l) != {} ==>
      r.Some? && r.value in l.vipSlots && forall s :: s in VipReportedFree(l) ==> r.value <= s
    ensures !(preferVip && VipReportedFree(l) != {}) ==> r == FindNextFreeSlot(l)
  {
    var reported := VipReportedFree(l);
    if preferVip && reported != {} then Some(MinOf(reported))
    else FirstEmptyFrom(l.table, 1)
  }

  /** `find_next_free_slot`, offering only VIP slots the lot has: with VIP
      preference the lowest empty VIP slot, otherwise (or when none is
      empty) the lowest empty slot; `None` only when every slot is taken. */
  function FindNextFreeSlot(l: Lot, preferVip: bool := false): (r: Option<int>)
    requires Valid(l.table)
    ensures r.Some? ==> Empty(l.table, r.value)
    ensures r.None? <==> forall s :: !Empty(l.table, s)
    ensures preferVip && (exists s :: s in l.vipSlots && Empty(l.table, s)) ==>
      && r.Some?
      && r.value in l.vipSlots
      && forall s :: s in l.vipSlots && Empty(l.table, s) ==> r.value <= s
    ensures !(preferVip && exists s :: s in l.vipSlots && Empty(l.table, s)) ==>
      r.Some? ==> forall s :: s < r.value ==> !Empty(l.table, s)
  {
    var free := VipFree(l);
    if preferVip && free != {} then Some(MinOf(free))
    else FirstEmptyFrom(l.table, 1)
  }

  /** When every VIP slot exists, the code as written and the corrected
      selection agree. */
  lemma AsWrittenAgreesWhenVipInLot(l: Lot, preferVip: bool)
    requires Valid(l.table) && VipInLot(l)
    ensures FindNextFreeSlotAsWritten(l, preferVip) == FindNextFreeSlot(l, preferVip)
  {
    assert VipReportedFree(l) == VipFree(l);
  }

  /** As written, the least VIP number, when the lot has no such slot, is
      handed out as a free slot although it is no slot of the lot. */
  lemma AsWrittenOffersMissingSlot(l: Lot, s: int)
    requires Valid(l.table)
    requires s in l.vipSlots && !(1 <= s <= l.table.total)
    requires forall v :: v in l.vipSlots ==> s <= v
    ensures FindNextFreeSlotAsWritten(l, true) == Some(s)
    ensures s !in l.table.slots
  {
    assert s in VipReportedFree(l);
  }

  /** The concrete case: two slots, VIP slot 3 configured, parking a VIP
      vehicle is offered slot 3. */
  lemma MissingVipSlotExample()
    ensures FindNextFreeSlotAsWritten(NewLot(LotSettings(Some(2), Some({3})), []), true) == Some(3)
    ensures 3 !in NewLot(LotSettings(Some(2), Some({3})), []).table.slots
  {
    AsWrittenOffersMissingSlot(NewLot(LotSettings(Some(2), Some({3})), []), 3);
  }

  /** A second concrete case: VIP slot 0 configured. As written, a VIP
      request is offered slot 0, which the lot does not have and which
      `park_vehicle`'s truthiness test then takes for "no slot"; the
      corrected selection offers slot 1. */
  lemma ZeroVipSlotExample()
    ensures FindNextFreeSlotAsWritten(NewLot(LotSettings(Some(2), Some({0})), []), true) == Some(0)
    ensures 0 !in NewLot(LotSettings(Some(2), Some({0})), []).table.slots
    ensures FindNextFreeSlot(NewLot(LotSettings(Some(2), Some({0})), []), true) == Some(1)
  {
    var l := NewLot(LotSettings(Some(2), Some({0})), []);
    AsWrittenOffersMissingSlot(l, 0);
    assert VipFree(l) == {};
  }

  // ---------------------------------------------------------------------------
  // Park and exit
  // ---------------------------------------------------------------------------

  /** `park_vehicle`: refuses a number already parked, then a full lot;
      otherwise stores a new vehicle, entered at `now`, in the selected slot.
      The type defaults to a car and the request to a non-VIP one. */
  function Park(l: Lot, number: string, now: int, vtype: string := "car", isVip: bool := false): (r: Step<Vehicle, ParkError>)
    requires Valid(l.table)
    ensures r.result.Err? ==> r.lot == l
    ensures r.result.Ok? ==> FindNextFreeSlot(l, isVip) == Some(r.result.value.slot)
    ensures (r.result.Err? && r.result.error.AlreadyParked?) <==> exists s :: Holds(l.table, s, number)
    ensures r.result.Err? && r.result.error.AlreadyParked? ==> Holds(l.table, r.result.error.slot, number)
    ensures r.result == Err(ParkingFull) <==>
      (forall s :: !Holds(l.table, s, number)) && (forall s :: !Empty(l.table, s))
    ensures r.result.Ok? ==>
      var v := r.result.value;
      && v == Vehicle(number, vtype, now, v.slot, isVip)
      && Empty(l.table, v.slot)
      && r.lot == l.(table := SaveParked(l.table, v.slot, v))
    ensures r.result.Ok? && isVip && (exists s :: s in l.vipSlots && Empty(l.table, s)) ==>
      r.result.value.slot in l.vipSlots
    ensures Inv(l) ==> Inv(r.lot)
  {
    match FindVehicleSlot(l.table, number)
    case Some(s) => Step(l, Err(AlreadyParked(s)))
    case None =>
      match FindNextFreeSlot(l, isVip)
      case None => Step(l, Err(ParkingFull))
      case Some(slot) =>
        var v := Vehicle(number, vtype, now, slot, isVip);
        ParkKeepsInv(l, v);
        Step(l.(table := SaveParked(l.table, slot, v)), Ok(v))
  }

  /** Storing a vehicle whose number is not parked, in an empty slot that it
      records as its own, keeps the invariant. */
  lemma ParkKeepsInv(l: Lot, v: Vehicle)
    requires Valid(l.table) && Empty(l.table, v.slot)
    requires forall s :: !Holds(l.table, s, v.number)
    ensures Inv(l) ==> Inv(l.(table := SaveParked(l.table, v.slot, v)))
  {
    var t := SaveParked(l.table, v.slot, v);
    if Inv(l) {
      forall a, b | Occupied(t, a) && Occupied(t, b) && t.slots[a].value.number == t.slots[b].value.number
        ensures a == b
      {
        if a != v.slot && b == v.slot {
          assert Holds(l.table, a, v.number);
        } else if a == v.slot && b != v.slot {
          assert Holds(l.table, b, v.number);
        }
      }
    }
  }

  /** Parking with the default arguments stores a non-VIP car in the lowest
      empty slot, whatever the VIP configuration. */
  lemma ParkDefaults(l: Lot, number: string, now: int)
    requires Valid(l.table)
    ensures Park(l, number, now).result.Ok? ==>
      var v := Park(l, number, now).result.value;
      && v.vtype == "car" && !v.isVip
      && forall s :: s < v.slot ==> !Empty(l.table, s)
  {
  }

  /** `exit_vehicle`: refuses an unknown number and an exit time before the
      entry; otherwise bills the stay, empties the slot and appends the
      closed record to the store. */
  function Exit(l: Lot, number: string, e: Engine, now: int): (r: Step<Receipt, ExitError>)
    requires Valid(l.table)
    ensures r.result.Err? ==> r.lot == l
    ensures r.result == Err(VehicleNotFound) <==> forall s :: !Holds(l.table, s, number)
    ensures r.result == Err(InvalidInterval) ==>
      exists s :: Holds(l.table, s, number) && now < l.table.slots[s].value.entryTime
    ensures Inv(l) && (exists s :: Holds(l.table, s, number) && now < l.table.slots[s].value.entryTime) ==>
      r.result == Err(InvalidInterval)
    ensures r.result.Ok? ==> Holds(l.table, r.result.value.slot, number)
    ensures r.result.Ok? ==>
      var rc := r.result.value;
      var v := l.table.slots[rc.slot].value;
      && rc == Receipt(number, v.vtype, v.entryTime, now, rc.slot, rc.charge.fee, rc.charge)
      && CalculateFee(e, v.entryTime, now, v.vtype) == Ok(rc.charge)
      && r.lot.vipSlots == l.vipSlots
      && r.lot.table == RemoveVehicle(l.table, rc.slot)
      && r.lot.store == l.store + [ClosedRecord(number, v.vtype, v.entryTime, now, v.slot, rc.fee)]
    ensures Inv(l) ==> Inv(r.lot)
  {
    match FindVehicleSlot(l.table, number)
    case None => Step(l, Err(VehicleNotFound))
    case Some(slot) =>
      var v := l.table.slots[slot].value;
      match CalculateFee(e, v.entryTime, now, v.vtype)
      case Err(_) => Step(l, Err(InvalidInterval))
      case Ok(charge) =>
        var next := l.(table := RemoveVehicle(l.table, slot), store := PersistExit(l.store, v, charge.fee, now));
        Step(next, Ok(Receipt(v.number, v.vtype, v.entryTime, now, slot, charge.fee, charge)))
  }

  /** The number of parked vehicles. */
  function OccupiedCount(t: SlotTable): nat
    requires Valid(t)
  {
    |AllOccupied(t)|
  }

  /** A successful park fills exactly one more slot. */
  lemma ParkOccupiesOneMore(l: Lot, number: string, vtype: string, isVip: bool, now: int)
    requires Inv(l)
    requires Park(l, number, now, vtype, isVip).result.Ok?
    ensures OccupiedCount(Park(l, number, now, vtype, isVip).lot.table) == OccupiedCount(l.table) + 1
  {
    var r := Park(l, number, now, vtype, isVip);
    var v := r.result.value;
    OccupiedFromLength(l.table, 1);
    OccupiedFromLength(r.lot.table, 1);
    SaveParkedCount(l.table, v.slot, v, 1);
  }

  /** A successful exit frees exactly one slot. */
  lemma ExitFreesOne(l: Lot, number: string, e: Engine, now: int)
    requires Inv(l)
    requires Exit(l, number, e, now).result.Ok?
    ensures OccupiedCount(Exit(l, number, e, now).lot.table) + 1 == OccupiedCount(l.table)
  {
    var r := Exit(l, number, e, now);
    OccupiedFromLength(l.table, 1);
    OccupiedFromLength(r.lot.table, 1);
    RemoveVehicleCount(l.table, r.result.value.slot, 1);
  }

  /** Parking a vehicle and letting it out again, with nothing in between,
      restores the slot table, appends one record billed for the stay, and
      leaves the number unknown to the lot. */
  lemma ParkThenExit(l: Lot, number: string, vtype: string, isVip: bool, entry: int, e: Engine, exit: int)
    requires Inv(l)
    requires Park(l, number, entry, vtype, isVip).result.Ok?
    requires entry <= exit
    ensures
      var parked := Park(l, number, entry, vtype, isVip);
      var left := Exit(parked.lot, number, e, exit);
      && left.result.Ok?
      && left.result.value.slot == parked.result.value.slot
      && left.lot.table == l.table
      && left.lot.store == l.store + [ClosedRecord(number, vtype, entry, exit, left.result.value.slot, left.result.value.fee)]
      && left.result.value.fee == CalculateFee(e, entry, exit, vtype).value.fee
      && FindVehicleSlot(left.lot.table, number).None?
  {
    var parked := Park(l, number, entry, vtype, isVip);
    var v := parked.result.value;
    var t1 := parked.lot.table;
    assert Holds(t1, v.slot, number);
    forall s | s != v.slot
      ensures !Holds(t1, s, number)
    {
      assert !Holds(l.table, s, number);
    }
    assert FindVehicleSlot(t1, number) == Some(v.slot);
    var left := Exit(parked.lot, number, e, exit);
    assert left.lot.table.slots == l.table.slots;
  }

  // ---------------------------------------------------------------------------
  // Views
  // ---------------------------------------------------------------------------

  /** The slot numbers recorded in a list of vehicles. */
  function SlotNumbers(vs: seq<Vehicle>): (r: seq<int>)
    ensures |r| == |vs|
    ensures forall i :: 0 <= i < |vs| ==> r[i] == vs[i].slot
  {
    seq(|vs|, i requires 0 <= i < |vs| => vs[i].slot)
  }

  /** The numbers from `from` to `total`, ascending, that are not in `taken`. */
  function FreeFrom(from: int, total: int, taken: seq<int>): (r: seq<int>)
    ensures forall i :: i in r <==> from <= i <= total && i !in taken
    ensures forall i :: 0 <= i < |r| ==> from <= r[i]
    ensures StrictlyIncreasing(r)
    decreases total - from
  {
    if from > total then []
    else if from !in taken then [from] + FreeFrom(from + 1, total, taken)
    else FreeFrom(from + 1, total, taken)
  }

  /** Free and occupied slots among `from..total` together number all of them. */
  lemma {:induction false} FreeFromCount(t: SlotTable, from: int, taken: seq<int>)
    requires Valid(t) && 1 <= from <= t.total + 1
    requires forall i :: from <= i <= t.total ==> (i in taken <==> Occupied(t, i))
    ensures |FreeFrom(from, t.total, taken)| + CountOccupiedFrom(t, from) == t.total - from + 1
    decreases t.total - from
  {
    if from <= t.total {
      FreeFromCount(t, from + 1, taken);
    }
  }

  /** In a lot that keeps its invariant, a slot number appears among the
      parked vehicles' recorded slots exactly when that slot is occupied. */
  lemma TakenIsOccupied(t: SlotTable)
    requires Valid(t) && SlotsMatch(t)
    ensures forall i :: i in SlotNumbers(AllOccupied(t)) <==> Occupied(t, i)
  {
    var occ := AllOccupied(t);
    var taken := SlotNumbers(occ);
    forall i
      ensures i in taken <==> Occupied(t, i)
    {
      if Occupied(t, i) {
        var v := t.slots[i].value;
        assert v in occ;
        var k :| 0 <= k < |occ| && occ[k] == v;
        assert taken[k] == i;
      }
      if i in taken {
        var k :| 0 <= k < |taken| && taken[k] == i;
        assert Occupied(t, occ[k].slot);
      }
    }
  }

  /** `current_status`. */
  function CurrentStatus(l: Lot): (r: Status)
    requires Valid(l.table)
    ensures r.totalSlots == l.table.total
    ensures r.occupiedCount == |r.occupied| && r.freeCount == |r.freeSlots|
    ensures forall v :: v in r.occupied <==> exists s :: Occupied(l.table, s) && l.table.slots[s].value == v
    ensures SlotsMatch(l.table) ==> forall i :: 0 <= i < |r.occupied| ==>
      Occupied(l.table, r.occupied[i].slot) && l.table.slots[r.occupied[i].slot].value == r.occupied[i]
    ensures SlotsMatch(l.table) ==> forall i, j :: 0 <= i < j < |r.occupied| ==> r.occupied[i].slot < r.occupied[j].slot
    ensures StrictlyIncreasing(r.freeSlots)
    ensures Inv(l) ==> forall s :: s in r.freeSlots <==> Empty(l.table, s)
    ensures Inv(l) ==> r.occupiedCount + r.freeCount == r.totalSlots
    ensures StrictlyIncreasing(r.vipSlots) && forall s :: s in r.vipSlots <==> s in l.vipSlots
  {
    var occupied := AllOccupied(l.table);
    var free := FreeFrom(1, l.table.total, SlotNumbers(occupied));
    StatusCounts(l);
    Status(l.table.total, |occupied|, |free|, free, occupied, Sorted(l.vipSlots))
  }

  /** The free-slot list of `current_status` complements the occupied slots. */
  lemma StatusCounts(l: Lot)
    requires Valid(l.table)
    ensures
      var occupied := AllOccupied(l.table);
      var free := FreeFrom(1, l.table.total, SlotNumbers(occupied));
      Inv(l) ==>
        && (forall s :: s in free <==> Empty(l.table, s))
        && |occupied| + |free| == l.table.total
  {
    if Inv(l) {
      var occupied := AllOccupied(l.table);
      TakenIsOccupied(l.table);
      FreeFromCount(l.table, 1, SlotNumbers(occupied));
      OccupiedFromLength(l.table, 1);
    }
  }

  /** The sum of the fees of some records. */
  function RecordFees(rs: seq<ClosedRecord>): int {
    if |rs| == 0 then 0 else rs[0].fee + RecordFees(rs[1..])
  }

  /** The sum of the fees of some rows. */
  function RowFees(rows: seq<Row>): int {
    if |rows| == 0 then 0 else rows[0].fee + RowFees(rows[1..])
  }

  /** Summing fees distributes over concatenation. */
  lemma {:induction false} RowFeesConcat(a: seq<Row>, b: seq<Row>)
    ensures RowFees(a + b) == RowFees(a) + RowFees(b)
  {
    if |a| > 0 {
      assert (a + b)[1..] == a[1..] + b;
      RowFeesConcat(a[1..], b);
    } else {
      assert a + b == b;
    }
  }

  /** Summing record fees distributes over concatenation. */
  lemma {:induction false} RecordFeesConcat(a: seq<ClosedRecord>, b: seq<ClosedRecord>)
    ensures RecordFees(a + b) == RecordFees(a) + RecordFees(b)
  {
    if |a| > 0 {
      assert (a + b)[1..] == a[1..] + b;
      RecordFeesConcat(a[1..], b);
    } else {
      assert a + b == b;
    }
  }

  /** The summary row of a closed record. */
  function ClosedRow(c: ClosedRecord): Row {
    Row(c.number, c.vtype, c.entryTime, Some(c.exitTime), c.slot, c.fee)
  }

  /** The summary row of a vehicle still parked: no exit, fee 0. */
  function ActiveRow(v: Vehicle): Row {
    Row(v.number, v.vtype, v.entryTime, None, v.slot, 0)
  }

  /** The rows of some closed records; their fees add up to the records' fees. */
  function ClosedRows(rs: seq<ClosedRecord>): (r: seq<Row>)
    ensures |r| == |rs|
    ensures forall i :: 0 <= i < |rs| ==> r[i] == ClosedRow(rs[i])
    ensures RowFees(r) == RecordFees(rs)
  {
    if |rs| == 0 then []
    else
      var rest := ClosedRows(rs[1..]);
      assert ([ClosedRow(rs[0])] + rest)[1..] == rest;
      [ClosedRow(rs[0])] + rest
  }

  /** The rows of the parked vehicles; they add nothing to the revenue. */
  function ActiveRows(vs: seq<Vehicle>): (r: seq<Row>)
    ensures |r| == |vs|
    ensures forall i :: 0 <= i < |vs| ==> r[i] == ActiveRow(vs[i])
    ensures RowFees(r) == 0
  {
    if |vs| == 0 then []
    else
      var rest := ActiveRows(vs[1..]);
      assert ([ActiveRow(vs[0])] + rest)[1..] == rest;
      [ActiveRow(vs[0])] + rest
  }

  /** `daily_revenue_summary`: the records closed on `day`, followed by every
      vehicle still parked (whatever its entry day) at fee 0. */
  function DailyRevenueSummary(l: Lot, day: int): (r: Summary)
    requires Valid(l.table)
    ensures r.day == day
    ensures r.totalVehicles == |r.rows| == |DailyRecords(l.store, day)| + OccupiedCount(l.table)
    ensures r.totalRevenue == RowFees(r.rows)
    ensures r.totalRevenue == RecordFees(DailyRecords(l.store, day))
  {
    var records := DailyRecords(l.store, day);
    var closed := ClosedRows(records);
    var active := ActiveRows(AllOccupied(l.table));
    RowFeesConcat(closed, active);
    Summary(day, |closed| + |active|, RecordFees(records), closed + active)
  }

  /** The summary's rows: first one per record closed on `day`, with its exit
      and fee; then one per parked vehicle, in slot order, without exit and
      at fee 0. */
  lemma SummaryRows(l: Lot, day: int)
    requires Valid(l.table)
    ensures
      var records := DailyRecords(l.store, day);
      var active := AllOccupied(l.table);
      var rows := DailyRevenueSummary(l, day).rows;
      && (forall i :: 0 <= i < |records| ==> rows[i] == ClosedRow(records[i]))
      && (forall i :: 0 <= i < |active| ==> rows[|records| + i] == ActiveRow(active[i]))
  {
    var records := DailyRecords(l.store, day);
    var closed := ClosedRows(records);
    var active := ActiveRows(AllOccupied(l.table));
    assert DailyRevenueSummary(l, day).rows == closed + active;
  }

  /** An exit moves one vehicle from the active rows of its exit day's
      summary to the closed ones: the vehicle count stays, and the revenue
      grows by the fee billed. */
  lemma ExitOnSummaryDay(l: Lot, number: string, e: Engine, now: int)
    requires Inv(l)
    requires Exit(l, number, e, now).result.Ok?
    ensures
      var r := Exit(l, number, e, now);
      var before := DailyRevenueSummary(l, DayOf(now));
      var after := DailyRevenueSummary(r.lot, DayOf(now));
      && after.totalVehicles == before.totalVehicles
      && after.totalRevenue == before.totalRevenue + r.result.value.fee
  {
    var r := Exit(l, number, e, now);
    var rc := r.result.value;
    var v := l.table.slots[rc.slot].value;
    ExitFreesOne(l, number, e, now);
    PersistExitDaily(l.store, v, rc.fee, now, DayOf(now));
    assert r.lot.store == PersistExit(l.store, v, rc.fee, now);
    var rec := ClosedRecord(v.number, v.vtype, v.entryTime, now, v.slot, rc.fee);
    RecordFeesConcat(DailyRecords(l.store, DayOf(now)), [rec]);
    assert [rec][1..] == [];
  }

  /** On any other day's summary an exit only removes the vehicle's active row. */
  lemma ExitOffSummaryDay(l: Lot, number: string, e: Engine, now: int, day: int)
    requires Inv(l)
    requires Exit(l, number, e, now).result.Ok?
    requires day != DayOf(now)
    ensures
      var r := Exit(l, number, e, now);
      var before := DailyRevenueSummary(l, day);
      var after := DailyRevenueSummary(r.lot, day);
      && after.totalVehicles + 1 == before.totalVehicles
      && after.totalRevenue == before.totalRevenue
  {
    var r := Exit(l, number, e, now);
    var rc := r.result.value;
    var v := l.table.slots[rc.slot].value;
    ExitFreesOne(l, number, e, now);
    PersistExitDaily(l.store, v, rc.fee, now, day);
    assert r.lot.store == PersistExit(l.store, v, rc.fee, now);
    assert DailyRecords(r.lot.store, day) == DailyRecords(l.store, day);
  }
}
