/** The parking lot itself (parkingLot.cs, class `ParkingLot`): a fixed
    sequence of slots, first-available allocation on `Park`, release by slot
    number on `Leave`, and the derived counts. The lot is an immutable value;
    each operation returns the new lot together with the outcome the source
    reports on the console. */
module ParkingLot {
  import opened Wrappers
  import opened Seqs
  import opened Slots

  datatype ParkOutcome = Allocated(slot: int) | Full

  datatype LeaveOutcome = Freed | AlreadyEmpty

  /** The lot after an operation, and what the operation reported. */
  datatype Step<O> = Step(lot: seq<Slot>, outcome: O)

  /** Slot at index i carries number i + 1. */
  predicate Numbered(lot: seq<Slot>) {
    forall i :: 0 <= i < |lot| ==> lot[i].number == i + 1
  }

  /** The lot invariant: numbered 1..capacity and every slot well formed. */
  predicate Valid(lot: seq<Slot>) {
    && Numbered(lot)
    && forall i :: 0 <= i < |lot| ==> WellFormed(lot[i])
  }

  /** The constructor: `capacity` empty slots numbered from 1. */
  function New(capacity: nat): (lot: seq<Slot>)
    ensures Valid(lot)
    ensures TotalSlots(lot) == capacity
    ensures AvailableSlots(lot) == capacity && OccupiedSlots(lot) == 0
  {
    seq(capacity, i => EmptySlot(i + 1))
  }

  /** The capacity: every slot is either occupied or available. */
  function TotalSlots(lot: seq<Slot>): (n: nat)
    ensures n == OccupiedSlots(lot) + AvailableSlots(lot)
  {
    CountComplement(lot, IsOccupied, IsAvailable);
    |lot|
  }

  /** The number of occupied slots; zero exactly when every slot is free. */
  function OccupiedSlots(lot: seq<Slot>): (n: nat)
    ensures n <= |lot|
    ensures n == 0 <==> forall i :: 0 <= i < |lot| ==> lot[i].status == Available
  {
    assert forall i :: 0 <= i < |lot| ==> lot[i] in lot;
    CountWhere(lot, IsOccupied)
  }

  /** The number of available slots; zero exactly when the lot is full. */
  function AvailableSlots(lot: seq<Slot>): (n: nat)
    ensures n <= |lot|
    ensures n == 0 <==> forall i :: 0 <= i < |lot| ==> lot[i].status == Occupied
  {
    assert forall i :: 0 <= i < |lot| ==> lot[i] in lot;
    CountWhere(lot, IsAvailable)
  }

  /** `k` is the slot `Park` picks: the lowest-indexed available one. */
  predicate IsFirstAvailable(lot: seq<Slot>, k: int) {
    IsFirst(lot, IsAvailable, k)
  }

  /** `k` is the slot `Leave(n)` looks at: the first one numbered n. */
  predicate IsFirstNumbered(lot: seq<Slot>, n: int, k: int) {
    IsFirst(lot, NumberIs(n), k)
  }

  /** Parks a vehicle in the first available slot. On a full lot nothing
      changes; otherwise only the chosen slot changes, and the outcome is its
      slot number. */
  function Park(lot: seq<Slot>, reg: string, color: string, kind: VehicleType): (r: Step<ParkOutcome>)
    ensures |r.lot| == |lot|
    ensures r.outcome.Full? <==> AvailableSlots(lot) == 0
    ensures r.outcome.Full? ==> r.lot == lot
    ensures r.outcome.Allocated? ==>
      exists k :: IsFirstAvailable(lot, k)
        && r.outcome.slot == lot[k].number
        && r.lot == lot[k := Occupy(lot[k], reg, color, kind)]
  {
    match FindFirst(lot, IsAvailable)
    case None => Step(lot, Full)
    case Some(k) =>
      assert IsFirstAvailable(lot, k);
      Step(lot[k := Occupy(lot[k], reg, color, kind)], Allocated(lot[k].number))
  }

  /** Frees the first slot numbered `n`. A missing number and an already
      available slot are both reported as AlreadyEmpty and change nothing;
      otherwise only that slot changes, back to the empty slot of its number. */
  function Leave(lot: seq<Slot>, n: int): (r: Step<LeaveOutcome>)
    ensures |r.lot| == |lot|
    ensures r.outcome.AlreadyEmpty? ==> r.lot == lot
    ensures r.outcome.Freed? <==>
      exists k :: IsFirstNumbered(lot, n, k) && lot[k].status == Occupied
    ensures r.outcome.Freed? ==>
      exists k :: IsFirstNumbered(lot, n, k) && r.lot == lot[k := EmptySlot(n)]
  {
    match FindFirst(lot, NumberIs(n))
    case None => Step(lot, AlreadyEmpty)
    case Some(k) =>
      assert IsFirstNumbered(lot, n, k);
      if lot[k].status == Available then
        assert forall j :: IsFirstNumbered(lot, n, j) ==> j == k by {
          forall j | IsFirstNumbered(lot, n, j) {
            IsFirstUnique(lot, NumberIs(n), j, k);
          }
        }
        Step(lot, AlreadyEmpty)
      else
        assert lot[k].status == Occupied;
        Step(lot[k := EmptySlot(n)], Freed)
  }

  /** On a valid lot, `Park` allocates slot n exactly when n - 1 is the
      lowest available index; the slot then holds the given vehicle and every
      other slot is untouched. It reports Full only when every slot is taken. */
  lemma ParkOnValid(lot: seq<Slot>, reg: string, color: string, kind: VehicleType)
    requires Valid(lot)
    ensures var r := Park(lot, reg, color, kind);
      && (r.outcome.Full? ==> forall i :: 0 <= i < |lot| ==> lot[i].status == Occupied)
      && (r.outcome.Allocated? ==>
            var n := r.outcome.slot;
            && 1 <= n <= |lot|
            && lot[n - 1].status == Available
            && (forall j :: 0 <= j < n - 1 ==> lot[j].status == Occupied)
            && r.lot[n - 1] == Slot(n, Occupied, kind, Some(reg), Some(color))
            && (forall j :: 0 <= j < |lot| && j != n - 1 ==> r.lot[j] == lot[j]))
  {
    var r := Park(lot, reg, color, kind);
    if r.outcome.Full? {
      forall i | 0 <= i < |lot|
        ensures lot[i].status == Occupied
      {
        assert lot[i] in lot;
      }
    } else {
      var k :| IsFirstAvailable(lot, k)
        && r.outcome.slot == lot[k].number
        && r.lot == lot[k := Occupy(lot[k], reg, color, kind)];
      assert r.outcome.slot == k + 1;
    }
  }

  /** On a valid lot, `Leave(n)` frees exactly when n names an occupied slot,
      and then only slot n changes, back to the empty slot. */
  lemma LeaveOnValid(lot: seq<Slot>, n: int)
    requires Valid(lot)
    ensures var r := Leave(lot, n);
      && (r.outcome.Freed? <==> 1 <= n <= |lot| && lot[n - 1].status == Occupied)
      && (r.outcome.Freed? ==> r.lot == lot[n - 1 := EmptySlot(n)])
      && (r.outcome.AlreadyEmpty? ==> r.lot == lot)
  {
    var r := Leave(lot, n);
    if 1 <= n <= |lot| {
      assert IsFirstNumbered(lot, n, n - 1);
      forall k | IsFirstNumbered(lot, n, k)
        ensures k == n - 1
      {
        IsFirstUnique(lot, NumberIs(n), k, n - 1);
      }
    } else {
      forall k | 0 <= k < |lot|
        ensures !IsFirstNumbered(lot, n, k)
      {
        assert lot[k].number == k + 1;
      }
    }
  }

  /** `Park` keeps the lot invariant. */
  lemma ParkPreservesValid(lot: seq<Slot>, reg: string, color: string, kind: VehicleType)
    requires Valid(lot)
    ensures Valid(Park(lot, reg, color, kind).lot)
  {
    ParkOnValid(lot, reg, color, kind);
  }

  /** `Leave` keeps the lot invariant. */
  lemma LeavePreservesValid(lot: seq<Slot>, n: int)
    requires Valid(lot)
    ensures Valid(Leave(lot, n).lot)
  {
    LeaveOnValid(lot, n);
  }

  /** A successful `Park` moves one slot from available to occupied. */
  lemma {:induction false} ParkCounts(lot: seq<Slot>, reg: string, color: string, kind: VehicleType)
    ensures var r := Park(lot, reg, color, kind);
      r.outcome.Allocated? ==>
        && OccupiedSlots(r.lot) == OccupiedSlots(lot) + 1
        && AvailableSlots(r.lot) == AvailableSlots(lot) - 1
  {
    var r := Park(lot, reg, color, kind);
    if r.outcome.Allocated? {
      var k :| IsFirstAvailable(lot, k) && r.lot == lot[k := Occupy(lot[k], reg, color, kind)];
      CountUpdate(lot, k, Occupy(lot[k], reg, color, kind), IsOccupied);
      CountUpdate(lot, k, Occupy(lot[k], reg, color, kind), IsAvailable);
    }
  }

  /** A successful `Leave` moves one slot from occupied to available. */
  lemma {:induction false} LeaveCounts(lot: seq<Slot>, n: int)
    ensures var r := Leave(lot, n);
      r.outcome.Freed? ==>
        && OccupiedSlots(r.lot) == OccupiedSlots(lot) - 1
        && AvailableSlots(r.lot) == AvailableSlots(lot) + 1
  {
    var r := Leave(lot, n);
    if r.outcome.Freed? {
      var k :| IsFirstNumbered(lot, n, k) && lot[k].status == Occupied;
      var j :| IsFirstNumbered(lot, n, j) && r.lot == lot[j := EmptySlot(n)];
      IsFirstUnique(lot, NumberIs(n), j, k);
      CountUpdate(lot, k, EmptySlot(n), IsOccupied);
      CountUpdate(lot, k, EmptySlot(n), IsAvailable);
    }
  }

  /** First-available, not most-recently-freed: after slot n is freed, the
      next `Park` takes slot n or a lower one, never a higher one. */
  lemma ParkAfterLeavePrefersLowest(lot: seq<Slot>, n: int, reg: string, color: string, kind: VehicleType)
    requires Valid(lot)
    requires Leave(lot, n).outcome.Freed?
    ensures var p := Park(Leave(lot, n).lot, reg, color, kind);
      p.outcome.Allocated? && 1 <= p.outcome.slot <= n
  {
    LeaveOnValid(lot, n);
    var freed := Leave(lot, n).lot;
    LeavePreservesValid(lot, n);
    assert freed[n - 1].status == Available;
    assert freed[n - 1] in freed;
    ParkOnValid(freed, reg, color, kind);
  }
}
