/** One parking slot: its fixed number, whether it is taken, and the vehicle
    in it (parkingLot.cs, the enums and `ParkingSlot`). */
module Slots {
  import opened Wrappers

  datatype VehicleType = Car | Motorcycle

  datatype ParkingStatus = Available | Occupied

  /** `reg` and `color` are None where the source holds a null string. */
  datatype Slot = Slot(
    number: int,
    status: ParkingStatus,
    kind: VehicleType,
    reg: Option<string>,
    color: Option<string>)

  /** A slot with nothing in it, as the constructor creates it and as `Leave`
      resets it: available, no registration or colour, type Car. */
  function EmptySlot(n: int): Slot {
    Slot(n, Available, Car, None, None)
  }

  /** The slot after a vehicle parks in it; its number is kept, and it is
      well formed whatever state the slot was in before. */
  function Occupy(s: Slot, reg: string, color: string, kind: VehicleType): (t: Slot)
    ensures t.number == s.number && t.status == Occupied
    ensures t.reg == Some(reg) && t.color == Some(color) && t.kind == kind
    ensures WellFormed(t)
  {
    s.(status := Occupied, kind := kind, reg := Some(reg), color := Some(color))
  }

  predicate IsAvailable(s: Slot) {
    s.status == Available
  }

  predicate IsOccupied(s: Slot) {
    s.status == Occupied
  }

  /** The lookup key `Leave` uses. */
  function NumberIs(n: int): Slot -> bool {
    (s: Slot) => s.number == n
  }

  /** The record invariant every reachable slot keeps: an available slot is
      exactly the empty slot of its number, and an occupied one has both a
      registration and a colour. */
  predicate WellFormed(s: Slot) {
    && (s.status == Available ==> s == EmptySlot(s.number))
    && (s.status == Occupied ==> s.reg.Some? && s.color.Some?)
  }

  const OddDigits: set<char> := {'1', '3', '5', '7', '9'}

  /** Plate parity: a registration is odd when it is present, non-empty, and
      ends in an odd decimal digit. A missing or empty registration, a final
      '0' or even digit, and any final non-digit are all "not odd". */
  function IsOddPlate(reg: Option<string>): (odd: bool)
    ensures odd <==> reg.Some? && |reg.value| > 0 && reg.value[|reg.value| - 1] in OddDigits
  {
    match reg
    case None => false
    case Some(r) =>
      if |r| == 0 then false
      else
        var last := r[|r| - 1];
        '1' <= last <= '9' && ((last as int) - ('0' as int)) % 2 != 0
  }
}
