# Smart parking lot: slot allocation and billing, modelled in Dafny

This project models the core of a small parking-lot service. The service
gives each arriving vehicle a numbered slot and prefers VIP slots when the
driver asks for one. When a vehicle leaves, the service bills the stay with a
tiered hourly tariff and stores a closed record. It also reports the lot's
status and a daily revenue summary.

The model has five modules:

- `Results` (`results.dfy`): `Option` and `Result`. These stand in for
  Python's `None` and for raised exceptions.
- `Billing` (`billing.dfy`): `BillingEngine`, i.e. the engine's
  configuration and `calculate_fee`.
- `Storage` (`storage.dfy`): the in-memory slot table of `Storage` and the
  record store. The store is an append-only sequence of closed records,
  queried by exit day.
- `Manager` (`manager.dfy`): `ParkingManager`. It is a state machine over a
  `Lot`, which holds the VIP slot set, the slot table and the record store.
  Every operation is a pure function that returns the next lot together with
  a `Result`. An operation that raises in the Python code returns `Err` with the
  lot it was given, unchanged.
- `IntSets` (`intsets.dfy`) holds the least element and the sorted
  enumeration of a set of integers, which the VIP slot set uses.

Units and conventions:

- Time is a whole number of seconds. The clock (`datetime.now()`) is an
  explicit `now` argument.
- A calendar day is `time / 86400`, counted in the service's time zone.
- Money is a whole number of hundredths of the currency unit.
- A multiplier is an exact rational `Ratio(num, den)`.
- A missing setting is `None` (`Billing.Settings`, `Manager.LotSettings`)
  and takes the Python code's default. Python's keyword defaults
  (`vtype="car"`, `is_vip=False`, `prefer_vip=False`) are Dafny default
  arguments.
- Because the arithmetic is exact, `round(fee * multiplier + 1e-9, 2)`
  becomes exact rounding to the nearest hundredth, with a tie going up
  (towards +infinity). That is what the epsilon achieves for both signs.
  For a negative amount this differs from rounding half away from zero.

The lot invariant `Manager.Inv` has three parts:

- the table holds exactly the slots `1..total`;
- each stored vehicle records its own slot;
- no two parked vehicles share a number.

`NewLot` establishes it, and `Park` and `Exit` preserve it.

## Model

| member | source | states |
|---|---|---|
| `Billing.NewEngine` | parking/billing.py:5-9 | Each missing setting takes its default: 2 hours, 20.00, 10.00 per hour, multipliers `{car: 1}`. Each given setting is used as is. |
| `Billing.ExtraHours` | parking/billing.py:18-24 | Zero extra hours while the stay is within the first tier, boundary included. Beyond it, the least whole number of hours covering the excess, which is at least 1. |
| `Billing.Multiplier` | parking/billing.py:28 | The multiplier configured for the vehicle type, and 1 for a type the configuration does not mention. |
| `Billing.RoundHalfUp` | parking/billing.py:29 | The result is the integer nearest to `num/den`, and a tie goes up. |
| `Billing.CalculateFee` | parking/billing.py:11-37 | Fails exactly when the exit precedes the entry. Otherwise: the duration in seconds and exact hours; `charged_hours >= first_hours` and `charged_hours - first_hours == extra_hours`; extra hours are zero exactly within the first tier and otherwise the ceiling of the excess; the type's multiplier (1 if unknown); the fee is the base fee times the multiplier, rounded to the hundredth with ties up. |
| `Billing.FirstTierFlat` | parking/billing.py:18-21 | Any stay of at most `first_hours`, including an empty one, is charged `first_hours`, has no extra hours and pays the first-tier fee times the multiplier. |
| `Billing.FeeMonotone` | parking/billing.py:18-29 | For a fixed type, with a non-negative hourly fee and multiplier, a longer stay never costs less. |
| `Billing.FeeNonNegative` | parking/billing.py:19-29 | With non-negative fees and multiplier, the fee is never negative. |
| `Billing.AppEngineExamples` | app.py:28-35 | With the application's settings, entering at 10:00: leaving at 12:00 costs 20.00 with no extra hour. Leaving at 12:01 bills one extra hour: 30.00 for a car, 15.00 for a bike, 45.00 for a heavy vehicle, and 30.00 for an unknown type. |
| `Storage.NewTable` | parking/storage.py:14-17 | A fresh table has exactly the slots `1..total_slots`, all empty. |
| `Storage.SaveParked` | parking/storage.py:21-22 | The slot now holds the vehicle and every other slot is unchanged. Storing into an existing slot keeps the table's slot set. |
| `Storage.RemoveVehicle` | parking/storage.py:24-25 | The slot is now empty and every other slot is unchanged. |
| `Storage.FindVehicleSlot` | parking/storage.py:27-31 | The result is the lowest slot holding a vehicle with that number. It is `None` exactly when no slot holds one. |
| `Storage.AllOccupied` | parking/storage.py:33-34 | The result holds exactly the vehicles in occupied slots. In a table where each vehicle records its own slot, each entry sits at its own slot and the entries are in strictly ascending slot order. |
| `Storage.OccupiedFromLength` | parking/storage.py:33-34 | The enumeration has one entry per occupied slot. |
| `Storage.PersistExit` | parking/storage.py:38-49 | Appends exactly one record, built from the vehicle, the fee and the exit time, and keeps every stored record. |
| `Storage.DailyRecords` | parking/storage.py:53-72 | Every returned record exits on the queried day, and the query never returns more records than are stored. |
| `Storage.DailyRecordsExact` | parking/storage.py:53-72 | The query returns exactly the stored records whose exit falls on the day, each as often as it is stored. |
| `Storage.PersistExitDaily` | parking/storage.py:38-72 | After persisting an exit, the query for the exit's day gains exactly that record at the end. The query for any other day is unchanged. |
| `Manager.NewLot` | parking/manager.py:17-22 | A new manager's lot satisfies the invariant, has every slot empty and keeps the existing store. A missing slot count defaults to 24 and missing VIP slots to none; given settings are used as is. |
| `Manager.FindNextFreeSlotAsWritten` | parking/manager.py:40-48 | As written: with VIP preference, the least VIP number that the slot dictionary does not report as occupied. That includes a number the lot does not have. Without VIP preference, or when no VIP number is reported free, it agrees with `FindNextFreeSlot` without preference. The preference defaults to off. |
| `Manager.FindNextFreeSlot` | parking/manager.py:40-48 | The returned slot is empty. With VIP preference and an empty VIP slot, it is the least empty VIP slot. Otherwise it is the least empty slot. It is `None` exactly when every slot is occupied, so VIP preference never causes a failure. The preference defaults to off. |
| `Manager.AsWrittenAgreesWhenVipInLot` | parking/manager.py:40-48 | When every configured VIP slot exists, the code as written and the corrected selection return the same slot. |
| `Manager.AsWrittenOffersMissingSlot` | parking/manager.py:41-44 | As written, when the least VIP number lies outside `1..total`, a VIP request is handed that number, which is no slot of the lot. |
| `Manager.ZeroVipSlotExample` | parking/manager.py:41-55 | With two slots and VIP slots `{0}`, a VIP request is offered slot 0, which the lot does not have. The corrected selection offers slot 1. |
| `Manager.MissingVipSlotExample` | parking/manager.py:41-44 | With two slots and VIP slots `{3}`, a VIP request is offered slot 3, which the lot does not have. |
| `Manager.Park` | parking/manager.py:50-61 | On an error the lot is unchanged. The result is `AlreadyParked(s)` exactly when the number is parked, and `s` holds it. It is `ParkingFull` exactly when the number is new and no slot is empty. On success, a vehicle entered at `now` goes into the slot `FindNextFreeSlot` selects, which was empty, no other slot changes, a VIP request gets a VIP slot whenever one is empty, and the invariant is kept. |
| `Manager.ParkDefaults` | parking/manager.py:50-55 | With the default arguments, a successful park stores a non-VIP car in the lowest empty slot. |
| `Manager.ParkKeepsInv` | parking/manager.py:51-60 | Storing a new number in an empty slot that the vehicle records as its own keeps vehicle numbers unique. |
| `Manager.Exit` | parking/manager.py:63-81 | On an error the lot is unchanged. The result is `VehicleNotFound` exactly when no slot holds the number, and, in a lot keeping the invariant, `InvalidInterval` exactly when the parked vehicle's entry is later than `now`. On success, the vehicle's slot is emptied, nothing else in the table changes, exactly one record with the billed fee is appended, the receipt carries the breakdown of `CalculateFee`, and the invariant is kept. |
| `Manager.ParkOccupiesOneMore` | parking/manager.py:57-61 | A successful park raises the occupied count by exactly one. |
| `Manager.ExitFreesOne` | parking/manager.py:71-72 | A successful exit lowers the occupied count by exactly one. |
| `Manager.ParkThenExit` | parking/manager.py:50-81 | A park followed by an exit of the same number, with no earlier exit time, restores the slot table exactly. It appends one record billed at `CalculateFee` for the stay, after which the number is no longer found. |
| `Manager.CurrentStatus` | parking/manager.py:27-38 | `occupied` lists exactly the parked vehicles; in a table where each vehicle records its own slot, each sits at its own slot, in ascending slot order. `free_slots` is strictly ascending, and in a lot keeping the invariant it lists exactly the empty slots. The occupied count plus the free count equals the total. The VIP list is the VIP set in ascending order. |
| `Manager.StatusCounts` | parking/manager.py:28-33 | In a lot keeping the invariant, the free-slot list is the complement of the occupied slots, and the two counts add up to the total. |
| `Manager.DailyRevenueSummary` | parking/manager.py:86-103 | `total_vehicles` is the number of rows, which is the number of records closed on the day plus the number of parked vehicles. `total_revenue` is the sum of the closed records' fees, which equals the sum over all rows. |
| `Manager.SummaryRows` | parking/manager.py:87-97 | The rows are the day's closed records, with exit and fee, followed by every parked vehicle in slot order, whatever its entry day, with no exit and fee 0. |
| `Manager.ExitOnSummaryDay` | parking/manager.py:63-103 | An exit leaves the vehicle count of its exit day's summary unchanged and adds the billed fee to that day's revenue. |
| `Manager.ExitOffSummaryDay` | parking/manager.py:63-103 | For any other day, an exit removes one vehicle from the summary and leaves that day's revenue unchanged. |

## Left out

- `generate_pdf_daily_report` (parking/manager.py:108-174) is not modelled. It only lays out and writes a PDF file.
- The Flask routes, request parsing and configuration loading of app.py are not modelled. The browser script static/js/app.js is not modelled either. Only the application's default settings appear, in `Billing.AppEngineExamples`.
- The SQLAlchemy model and session are not modelled (parking/models.py, parking/storage.py:40-49 and 58-60). The record store is an abstract sequence. The SQL query returns rows in an unspecified order; the model returns them in storage order. Records stay records rather than dictionaries.
- A failing database write in `persist_exit` is not modelled. In the Python code it raises after the slot has already been emptied. The model's `Exit` always appends the record.
- Floating point is not modelled. The fee, the multipliers and `duration_hours` are exact integers and rationals. `int(total_seconds)` truncation is trivial because times are whole seconds.
- Timestamps are whole seconds, not ISO strings. The `datetime.fromisoformat`/`isoformat` round trips are not modelled, and neither is the summary's date string.
- The `int(...)` and `float(...)` conversions of settings are not modelled. Settings arrive already typed.
- Negative `total_slots` is not modelled. The total is a natural number.
- Locking and concurrent requests are not modelled. The model is a single sequential state machine.
- Storage.FindVehicleSlot, Storage.AllOccupied: these require the table to hold exactly the slots `1..total`, because the model's scans visit only `1..total` while Python iterates every key of the dictionary. When the requirement holds, Python's insertion order is ascending. Every lot reachable through `NewLot`, `Park` and `Exit` meets it.
- Manager.Park: stores the vehicle in the slot the corrected `FindNextFreeSlot` selects. It therefore differs from the Python code when a configured VIP number lies outside `1..total`, where the code would store the vehicle under that missing number (see Findings).
- The Python code tests the truthiness of `existing` and `slot` (parking/manager.py:52, 55). The model tests `None` instead. The two agree in the model, because every slot it can return is at least 1. In the Python code a configured VIP number 0 is returned as a slot and then read as "no slot" (see Findings).

## Findings

| source | as written | input that shows it | evidently intended | confidence | as-written member | corrected member |
|---|---|---|---|---|---|---|
| parking/manager.py:41-44 | `self.storage.slots.get(s) is None` also holds for a configured VIP number that the slot dictionary does not contain, so that number is handed out as a free slot | `total_slots = 2`, `vip_slots = {3}`, `find_next_free_slot(prefer_vip=True)` on an empty lot returns 3; `park_vehicle` then stores the vehicle under a key outside `1..total_slots`. With `vip_slots = {0}` instead, 0 is returned and `if not slot` (parking/manager.py:55) raises "Parking full" on an empty lot | offer only VIP slots that exist in the lot and are empty | medium, not executed | `Manager.FindNextFreeSlotAsWritten`, `Manager.MissingVipSlotExample`, `Manager.ZeroVipSlotExample` | `Manager.FindNextFreeSlot` (used by `Manager.Park`; `Manager.AsWrittenAgreesWhenVipInLot` shows both agree whenever the configured VIP slots lie in the lot) |
