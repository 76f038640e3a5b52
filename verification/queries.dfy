/** The read-only views of the lot (parkingLot.cs, `Status` and the `Get…`
    queries): order-preserving filters over the occupied slots, projected to
    registrations, slot numbers or vehicle types, evaluated eagerly. */
module Queries {
  import opened Wrappers
  import opened Seqs
  import opened Slots
  import opened ParkingLot

  /** Every occupied slot has a registration; what the registration
      projections need, and what every valid lot satisfies. */
  predicate Registered(lot: seq<Slot>) {
    forall s :: s in lot && IsOccupied(s) ==> s.reg.Some?
  }

  lemma ValidIsRegistered(lot: seq<Slot>)
    requires Valid(lot)
    ensures Registered(lot)
  {
    forall s | s in lot && IsOccupied(s)
      ensures s.reg.Some?
    {
      var i :| 0 <= i < |lot| && lot[i] == s;
      assert WellFormed(lot[i]);
    }
  }

  /** The registrations of `slots`, in order. */
  function Registrations(slots: seq<Slot>): (r: seq<string>)
    requires forall s :: s in slots ==> s.reg.Some?
    ensures |r| == |slots|
    ensures forall i :: 0 <= i < |slots| ==> slots[i].reg == Some(r[i])
  {
    if |slots| == 0 then []
    else [slots[0].reg.value] + Registrations(slots[1..])
  }

  /** The slot numbers of `slots`, in order. */
  function Numbers(slots: seq<Slot>): (r: seq<int>)
    ensures |r| == |slots|
    ensures forall i :: 0 <= i < |slots| ==> r[i] == slots[i].number
  {
    if |slots| == 0 then []
    else [slots[0].number] + Numbers(slots[1..])
  }

  /** The vehicle types of `slots`, in order. */
  function Kinds(slots: seq<Slot>): (r: seq<VehicleType>)
    ensures |r| == |slots|
    ensures forall i :: 0 <= i < |slots| ==> r[i] == slots[i].kind
  {
    if |slots| == 0 then []
    else [slots[0].kind] + Kinds(slots[1..])
  }

  /** Occupied and parked with exactly colour `c` (case-sensitive). */
  function ColorIs(c: string): Slot -> bool {
    (s: Slot) => s.color == Some(c) && s.status == Occupied
  }

  predicate OddOccupied(s: Slot) {
    IsOddPlate(s.reg) && s.status == Occupied
  }

  predicate EvenOccupied(s: Slot) {
    !IsOddPlate(s.reg) && s.status == Occupied
  }

  /** One registration per occupied slot of colour `c`. */
  function RegistrationNumbersForColor(lot: seq<Slot>, c: string): (r: seq<string>)
    requires Registered(lot)
    ensures |r| == CountWhere(lot, ColorIs(c))
  {
    CountIsLength(lot, ColorIs(c));
    Registrations(Where(lot, ColorIs(c)))
  }

  /** One slot number per occupied slot of colour `c`. */
  function SlotNumbersForColor(lot: seq<Slot>, c: string): (r: seq<int>)
    ensures |r| == CountWhere(lot, ColorIs(c))
  {
    CountIsLength(lot, ColorIs(c));
    Numbers(Where(lot, ColorIs(c)))
  }

  /** One registration per occupied slot with an odd plate. */
  function RegistrationNumbersWithOddPlate(lot: seq<Slot>): (r: seq<string>)
    requires Registered(lot)
    ensures |r| == CountWhere(lot, OddOccupied)
  {
    CountIsLength(lot, OddOccupied);
    Registrations(Where(lot, OddOccupied))
  }

  /** One registration per occupied slot without an odd plate. */
  function RegistrationNumbersWithEvenPlate(lot: seq<Slot>): (r: seq<string>)
    requires Registered(lot)
    ensures |r| == CountWhere(lot, EvenOccupied)
  {
    CountIsLength(lot, EvenOccupied);
    Registrations(Where(lot, EvenOccupied))
  }

  /** The registrations of all occupied slots, in slot order. */
  function OccupiedRegistrations(lot: seq<Slot>): seq<string>
    requires Registered(lot)
  {
    Registrations(Where(lot, IsOccupied))
  }

  /** One entry per occupied slot, in slot order. */
  function TypeOfVehicles(lot: seq<Slot>): (r: seq<VehicleType>)
    ensures |r| == OccupiedSlots(lot)
  {
    CountIsLength(lot, IsOccupied);
    Kinds(Where(lot, IsOccupied))
  }

  /** Slot numbers strictly increase along `slots`. */
  predicate Ascending(slots: seq<Slot>) {
    forall i, j :: 0 <= i < j < |slots| ==> slots[i].number < slots[j].number
  }

  /** Filtering keeps slot order. */
  lemma {:induction false} WhereAscending(slots: seq<Slot>, p: Slot -> bool)
    requires Ascending(slots)
    ensures Ascending(Where(slots, p))
  {
    if |slots| > 0 {
      WhereAscending(slots[1..], p);
      var rest := Where(slots[1..], p);
      forall j | 0 <= j < |rest|
        ensures slots[0].number < rest[j].number
      {
        assert rest[j] in slots[1..];
        var i :| 0 <= i < |slots[1..]| && slots[1..][i] == rest[j];
        assert slots[i + 1] == rest[j];
      }
    }
  }

  /** In a numbered lot, the slot that a filtered element came from is found
      at index number - 1. */
  lemma WhereFromNumbered(lot: seq<Slot>, p: Slot -> bool, i: int)
    requires Numbered(lot)
    requires 0 <= i < |Where(lot, p)|
    ensures var s := Where(lot, p)[i];
      1 <= s.number <= |lot| && lot[s.number - 1] == s && p(s)
  {
    var s := Where(lot, p)[i];
    assert s in Where(lot, p);
    var k :| 0 <= k < |lot| && lot[k] == s;
  }

  /** Every occupied slot of colour `c` is listed by the slot-number query. */
  lemma ColorQueryComplete(lot: seq<Slot>, c: string, n: int)
    requires Numbered(lot)
    requires 1 <= n <= |lot| && lot[n - 1].status == Occupied && lot[n - 1].color == Some(c)
    ensures n in SlotNumbersForColor(lot, c)
  {
    var w := Where(lot, ColorIs(c));
    assert lot[n - 1] in lot;
    assert lot[n - 1] in w;
    var i :| 0 <= i < |w| && w[i] == lot[n - 1];
    assert SlotNumbersForColor(lot, c)[i] == n;
  }

  /** Entry i of the colour queries names an occupied slot of colour `c`, and
      the two lists agree on it. */
  lemma ColorQueryEntry(lot: seq<Slot>, c: string, i: int)
    requires Valid(lot)
    requires 0 <= i < |SlotNumbersForColor(lot, c)|
    ensures Registered(lot)
    ensures var n := SlotNumbersForColor(lot, c)[i];
      && 1 <= n <= |lot|
      && lot[n - 1].status == Occupied
      && lot[n - 1].color == Some(c)
      && lot[n - 1].reg == Some(RegistrationNumbersForColor(lot, c)[i])
  {
    ValidIsRegistered(lot);
    WhereFromNumbered(lot, ColorIs(c), i);
  }

  /** The colour queries on a valid lot correspond entry by entry: both lists
      have the same length, and at each position the slot-number list names
      an occupied slot of colour `c` whose registration is the entry of the
      registration list. */
  lemma ColorQueriesCorrespond(lot: seq<Slot>, c: string)
    requires Valid(lot)
    ensures Registered(lot)
    ensures var nums := SlotNumbersForColor(lot, c);
      var regs := RegistrationNumbersForColor(lot, c);
      && |regs| == |nums|
      && forall i :: 0 <= i < |nums| ==>
           && 1 <= nums[i] <= |lot|
           && lot[nums[i] - 1].status == Occupied
           && lot[nums[i] - 1].color == Some(c)
           && lot[nums[i] - 1].reg == Some(regs[i])
  {
    ValidIsRegistered(lot);
    var nums := SlotNumbersForColor(lot, c);
    var regs := RegistrationNumbersForColor(lot, c);
    forall i | 0 <= i < |nums|
      ensures && 1 <= nums[i] <= |lot|
              && lot[nums[i] - 1].status == Occupied
              && lot[nums[i] - 1].color == Some(c)
              && lot[nums[i] - 1].reg == Some(regs[i])
    {
      ColorQueryEntry(lot, c, i);
    }
  }

  /** The slot-number query on a valid lot lists exactly the occupied slots of
      colour `c`, in strictly increasing order. */
  lemma SlotNumbersForColorExact(lot: seq<Slot>, c: string)
    requires Valid(lot)
    ensures var nums := SlotNumbersForColor(lot, c);
      && (forall i, j :: 0 <= i < j < |nums| ==> nums[i] < nums[j])
      && (forall n :: n in nums <==>
            1 <= n <= |lot| && lot[n - 1].status == Occupied && lot[n - 1].color == Some(c))
  {
    var nums := SlotNumbersForColor(lot, c);
    WhereAscending(lot, ColorIs(c));
    forall n | n in nums
      ensures 1 <= n <= |lot| && lot[n - 1].status == Occupied && lot[n - 1].color == Some(c)
    {
      var i :| 0 <= i < |nums| && nums[i] == n;
      WhereFromNumbered(lot, ColorIs(c), i);
    }
    forall n | 1 <= n <= |lot| && lot[n - 1].status == Occupied && lot[n - 1].color == Some(c)
      ensures n in nums
    {
      ColorQueryComplete(lot, c, n);
    }
  }

  /** The one-pass form of `Registrations(Where(slots, p))`, convenient for
      induction. */
  function RegistrationsWhere(slots: seq<Slot>, p: Slot -> bool): (r: seq<string>)
    requires forall s :: s in slots && p(s) ==> s.reg.Some?
    ensures |r| <= |slots|
  {
    if |slots| == 0 then []
    else (if p(slots[0]) then [slots[0].reg.value] else []) + RegistrationsWhere(slots[1..], p)
  }

  lemma {:induction false} RegistrationsWhereIsComposed(slots: seq<Slot>, p: Slot -> bool)
    requires forall s :: s in slots && p(s) ==> s.reg.Some?
    ensures RegistrationsWhere(slots, p) == Registrations(Where(slots, p))
  {
    if |slots| > 0 {
      RegistrationsWhereIsComposed(slots[1..], p);
      if p(slots[0]) {
        var w := Where(slots[1..], p);
        assert ([slots[0]] + w)[1..] == w;
      }
    }
  }

  /** Registrations of filters split the way the filters split. */
  lemma {:induction false} RegistrationsPartition(slots: seq<Slot>, all: Slot -> bool, a: Slot -> bool, b: Slot -> bool)
    requires forall s :: all(s) <==> a(s) || b(s)
    requires forall s :: !(a(s) && b(s))
    requires forall s :: s in slots && all(s) ==> s.reg.Some?
    ensures multiset(RegistrationsWhere(slots, a)) + multiset(RegistrationsWhere(slots, b))
            == multiset(RegistrationsWhere(slots, all))
  {
    if |slots| > 0 {
      RegistrationsPartition(slots[1..], all, a, b);
    }
  }

  /** The odd-plate and even-plate lists split the occupied slots'
      registrations: together they hold each of them exactly once, so their
      lengths add up to the occupied count. */
  lemma {:induction false} OddEvenSplit(lot: seq<Slot>)
    requires Registered(lot)
    ensures multiset(RegistrationNumbersWithOddPlate(lot)) + multiset(RegistrationNumbersWithEvenPlate(lot))
            == multiset(OccupiedRegistrations(lot))
    ensures |RegistrationNumbersWithOddPlate(lot)| + |RegistrationNumbersWithEvenPlate(lot)| == OccupiedSlots(lot)
  {
    RegistrationsPartition(lot, IsOccupied, OddOccupied, EvenOccupied);
    RegistrationsWhereIsComposed(lot, IsOccupied);
    RegistrationsWhereIsComposed(lot, OddOccupied);
    RegistrationsWhereIsComposed(lot, EvenOccupied);
    CountIsLength(lot, IsOccupied);
    var odd := RegistrationNumbersWithOddPlate(lot);
    var even := RegistrationNumbersWithEvenPlate(lot);
    assert |multiset(odd)| + |multiset(even)| == |multiset(OccupiedRegistrations(lot))|;
  }

  /** Every entry of the odd-plate list is an odd plate, no entry of the
      even-plate list is, and on a valid lot both lists follow slot order. */
  lemma {:induction false} OddEvenClassified(lot: seq<Slot>)
    requires Registered(lot)
    ensures forall r :: r in RegistrationNumbersWithOddPlate(lot) ==> IsOddPlate(Some(r))
    ensures forall r :: r in RegistrationNumbersWithEvenPlate(lot) ==> !IsOddPlate(Some(r))
    ensures Numbered(lot) ==> Ascending(Where(lot, OddOccupied)) && Ascending(Where(lot, EvenOccupied))
  {
    var odd := RegistrationNumbersWithOddPlate(lot);
    var even := RegistrationNumbersWithEvenPlate(lot);
    forall r | r in odd
      ensures IsOddPlate(Some(r))
    {
      var i :| 0 <= i < |odd| && odd[i] == r;
      assert Where(lot, OddOccupied)[i] in Where(lot, OddOccupied);
    }
    forall r | r in even
      ensures !IsOddPlate(Some(r))
    {
      var i :| 0 <= i < |even| && even[i] == r;
      assert Where(lot, EvenOccupied)[i] in Where(lot, EvenOccupied);
    }
    if Numbered(lot) {
      WhereAscending(lot, OddOccupied);
      WhereAscending(lot, EvenOccupied);
    }
  }

  /** A freed slot is no longer reported by the colour queries. */
  lemma FreedSlotNotReported(lot: seq<Slot>, n: int, c: string)
    requires Valid(lot)
    requires Leave(lot, n).outcome.Freed?
    ensures n !in SlotNumbersForColor(Leave(lot, n).lot, c)
  {
    LeaveOnValid(lot, n);
    LeavePreservesValid(lot, n);
    SlotNumbersForColorExact(Leave(lot, n).lot, c);
  }

  /** One line of the status table; "-" stands in for a missing registration
      or colour. */
  datatype Row = Row(slot: int, kind: VehicleType, reg: string, color: string)

  const Placeholder: string := "-"

  /** The status table: one row per slot, in slot order. */
  function Status(lot: seq<Slot>): (rows: seq<Row>)
    ensures |rows| == |lot|
  {
    seq(|lot|, i requires 0 <= i < |lot| =>
      Row(lot[i].number, lot[i].kind, lot[i].reg.GetOr(Placeholder), lot[i].color.GetOr(Placeholder)))
  }

  /** On a valid lot, the status row of slot i + 1 shows placeholders and type
      Car when the slot is available, and the parked vehicle otherwise. */
  lemma StatusOfValid(lot: seq<Slot>)
    requires Valid(lot)
    ensures forall i :: 0 <= i < |lot| ==>
      Status(lot)[i] ==
        if lot[i].status == Available then Row(i + 1, Car, "-", "-")
        else Row(i + 1, lot[i].kind, lot[i].reg.value, lot[i].color.value)
  {
  }
}
