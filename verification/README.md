# Parking lot — a verified Dafny model

This project models the core of a small parking-lot system: a `ParkingLot`
owning a fixed sequence of slots numbered 1..capacity. `Park` puts a vehicle
(registration, colour, type Car or Motorcycle) in the lowest-numbered available
slot. `Leave` frees a slot by number. Queries list the occupied slots by colour,
by plate parity and by vehicle type. The lot is modelled as an immutable
`seq<Slot>`. `Park` and `Leave` are pure functions that return the new lot and
the outcome the original prints (`Allocated(n)` or `Full`; `Freed` or
`AlreadyEmpty`). The queries are eager, order-preserving filters.

Modules, one per part of the original class:

- `Wrappers` (wrappers.dfy): `Option`, used for the nullable registration and colour strings.
- `Seqs` (seqs.dfy): the generic search, filter and count the class builds on (`FirstOrDefault`, `Where`, `Count`), with their laws.
- `Slots` (slots.dfy): the enums, the slot record, the empty slot, the slot invariant and the plate-parity classifier.
- `ParkingLot` (parking_lot.dfy): construction, the counts, `Park`, `Leave`, and the lemmas about them on valid lots.
- `Histories` (histories.dfy): arbitrary sequences of `Park`/`Leave`, filling a lot, and the slot-reuse scenario.
- `Queries` (queries.dfy): the colour, parity and type queries and the status table, with their characterisations.

A lot is `Valid` when slot i has number i + 1, every available slot equals the
empty slot of its number (no registration, no colour, type Car), and every
occupied slot has a registration and a colour. `New` builds a valid lot. `Park`
and `Leave` preserve validity, so every lot reachable through the class is
valid (`Histories.RunPreservesValid`). `Park` and `Leave` themselves need no
precondition: they are stated for any sequence of slots, as the source searches
by status and by slot number. The registration queries only need every
occupied slot to carry a registration (`Queries.Registered`). This is what the
source's `Select` projects, and every valid lot has it.

Construction does not validate the capacity. A capacity of 0 gives a lot that
is full from the start, and a negative capacity makes `List<T>(capacity)` throw
in the runtime library. `New` therefore takes a `nat`, and 0 is allowed.

## Model

| member | source | states |
|---|---|---|
| Seqs.FindFirst | parkingLot.cs:49 | the search returns the index of the first element satisfying the predicate, or None exactly when no element does |
| Seqs.Where | parkingLot.cs:116 | the filter keeps exactly the elements satisfying the predicate and never grows the sequence; order and multiplicity are stated by Seqs.WhereConcat and Seqs.WhereMultiplicity |
| Seqs.WhereConcat | parkingLot.cs:116 | filtering a concatenation gives the filtered first part followed by the filtered second part, so kept elements stay in input order |
| Seqs.WhereMultiplicity | parkingLot.cs:116 | the filter keeps every copy of an element satisfying the predicate and no copy of any other |
| Seqs.CountWhere | parkingLot.cs:44-45 | the count is zero exactly when no element qualifies and equals the length exactly when all do |
| Seqs.CountIsLength | parkingLot.cs:44 | counting the slots that satisfy a predicate gives the length of their filtered list |
| Slots.IsOddPlate | parkingLot.cs:120-127 | a plate is odd iff it is present, non-empty and its last character is one of 1, 3, 5, 7, 9; null, empty, a final 0 or even digit, and a final letter are all even |
| ParkingLot.New | parkingLot.cs:30-41 | a new lot of capacity C is valid (slot i numbered i + 1, all empty), has C slots, C available and none occupied |
| ParkingLot.TotalSlots | parkingLot.cs:43 | the total number of slots equals occupied plus available slots |
| ParkingLot.OccupiedSlots | parkingLot.cs:44 | the occupied count is at most the capacity and is zero exactly when every slot is available |
| ParkingLot.AvailableSlots | parkingLot.cs:45 | the available count is at most the capacity and is zero exactly when every slot is occupied |
| ParkingLot.Park | parkingLot.cs:47-62 | Park reports Full exactly when no slot is available and then changes nothing; otherwise it occupies the first available slot with the given vehicle, changes no other slot, and reports that slot's number |
| ParkingLot.Leave | parkingLot.cs:64-79 | Leave frees exactly when the first slot with that number is occupied, and then resets only that slot to the empty slot; a missing number and an empty slot both report AlreadyEmpty and change nothing |
| ParkingLot.ParkOnValid | parkingLot.cs:49-59 | on a valid lot, the allocated slot n is available and every lower slot is occupied; slot n then holds the vehicle and no other slot changes; Full means every slot is occupied |
| ParkingLot.LeaveOnValid | parkingLot.cs:66-76 | on a valid lot, Leave(n) frees iff 1 <= n <= capacity and slot n is occupied, and then only slot n changes, back to empty |
| ParkingLot.ParkPreservesValid | parkingLot.cs:56-59 | Park keeps numbering and the slot invariant |
| ParkingLot.LeavePreservesValid | parkingLot.cs:73-76 | Leave keeps numbering and the slot invariant (a freed slot has no registration, no colour, type Car) |
| ParkingLot.ParkCounts | parkingLot.cs:43-62 | a successful Park raises the occupied count by one and lowers the available count by one |
| ParkingLot.LeaveCounts | parkingLot.cs:43-79 | a successful Leave lowers the occupied count by one and raises the available count by one |
| ParkingLot.ParkAfterLeavePrefersLowest | parkingLot.cs:49 | after slot n is freed, the next Park succeeds and takes slot n or a lower one, never a higher one |
| Histories.RunPreservesValid | parkingLot.cs:30-79 | after any sequence of Park and Leave the capacity is unchanged, slot i still has number i + 1, every slot is well formed, and occupied plus available equals the total |
| Histories.ParkAllAllocates | parkingLot.cs:47-62 | with k available slots, up to k vehicles in a row are all allocated and each uses up one available slot |
| Histories.ParkAllThenFull | parkingLot.cs:49-54 | once the k available slots are filled by k vehicles, the next Park reports Full and leaves the lot unchanged |
| Histories.ReuseFreedLowSlot | parkingLot.cs:47-79 | on a 3-slot lot two vehicles get slots 1 and 2; after slot 1 is freed the next vehicle gets slot 1, not slot 3 |
| Queries.WhereAscending | parkingLot.cs:92 | filtering the slots keeps them in increasing slot-number order |
| Queries.RegistrationNumbersForColor | parkingLot.cs:90-94 | one registration per occupied slot of the colour; Queries.ColorQueriesCorrespond gives which registration sits at each position |
| Queries.SlotNumbersForColor | parkingLot.cs:96-100 | one slot number per occupied slot of the colour; Queries.SlotNumbersForColorExact gives which numbers and in what order |
| Queries.ColorQueriesCorrespond | parkingLot.cs:90-100 | the registration and slot-number lists for a colour have equal length, and entry i of each describes the same occupied slot of that colour |
| Queries.SlotNumbersForColorExact | parkingLot.cs:96-100 | the slot-number list for a colour holds exactly the occupied slots of that colour, in strictly increasing order |
| Queries.RegistrationsPartition | parkingLot.cs:104-111 | when two predicates split a third into disjoint cases, the registration lists they select split the third's list as a multiset |
| Queries.RegistrationNumbersWithOddPlate | parkingLot.cs:102-106 | one registration per occupied slot with an odd plate; Queries.OddEvenClassified and Queries.OddEvenSplit characterise the entries |
| Queries.RegistrationNumbersWithEvenPlate | parkingLot.cs:108-112 | one registration per occupied slot without an odd plate; Queries.OddEvenClassified and Queries.OddEvenSplit characterise the entries |
| Queries.OddEvenSplit | parkingLot.cs:102-112 | the odd and even lists together hold every occupied slot's registration exactly once, so their lengths add up to the occupied count |
| Queries.OddEvenClassified | parkingLot.cs:102-112 | every odd-list entry is an odd plate, no even-list entry is, and on a numbered lot both lists follow slot order |
| Queries.FreedSlotNotReported | parkingLot.cs:96-100 | a slot freed by Leave is no longer listed by the slot-number query for any colour |
| Queries.TypeOfVehicles | parkingLot.cs:114-118 | the vehicle-type list has one entry per occupied slot |
| Queries.Status | parkingLot.cs:81-88 | one status row per slot; Queries.StatusOfValid gives the content of each row |
| Queries.StatusOfValid | parkingLot.cs:81-88 | on a valid lot, status row i shows slot i + 1 with type Car and "-" placeholders when the slot is available, and the parked vehicle's type, registration and colour otherwise |

## Left out

- Console output in `Park`, `Leave` and `Status` (parkingLot.cs:52, 61, 69, 78, 83-87): the messages become returned outcomes and `Status` a list of rows; the tab formatting and header line are not modelled.
- `Program.Main` (parkingLot.cs:130-250): it is the line-oriented command interpreter. It covers token splitting, `int.Parse`, the "not created yet" guard, the "Motor" token mapping, `string.Join` output and counting `GetTypeOfVehicles`. All of that is I/O glue around the class.
- Negative capacity: `new List<ParkingSlot>(capacity)` throws in the runtime library, so `New` takes a natural number.
- Null arguments: `Park` and the colour queries take strings, as every caller passes a token; only the slot fields are nullable (`Option`).
- Culture-sensitive `ToUpper` in `IsOddPlate`: it does not change the length of the string or any ASCII digit, and only a final ASCII digit decides parity, so the model classifies the raw last character.
- LINQ deferred execution: the queries are evaluated eagerly as sequences.
- 32-bit `int`: slot numbers and counts never exceed the capacity, so unbounded integers do not change any result.
- Queries.TypeOfVehicles: its contract states only the length (one entry per occupied slot), not which type each entry holds, because the only caller prints just the number of entries.
