/** Sequences of `Park` and `Leave` calls on one lot: the invariants that hold
    after any history of operations, filling a lot, and the allocation
    scenario of the command interface. */
module Histories {
  import opened Slots
  import opened ParkingLot

  datatype Vehicle = Vehicle(reg: string, color: string, kind: VehicleType)

  datatype Command = ParkCmd(vehicle: Vehicle) | LeaveCmd(slot: int)

  /** The lot after running `cmds` in order, starting from `lot`. */
  function Run(lot: seq<Slot>, cmds: seq<Command>): seq<Slot>
    decreases |cmds|
  {
    if |cmds| == 0 then lot
    else
      var next := match cmds[0]
        case ParkCmd(v) => Park(lot, v.reg, v.color, v.kind).lot
        case LeaveCmd(n) => Leave(lot, n).lot;
      Run(next, cmds[1..])
  }

  /** After any history the capacity is unchanged, slot i still has number
      i + 1, every slot is well formed, and the counts add up to the capacity. */
  lemma {:induction false} RunPreservesValid(lot: seq<Slot>, cmds: seq<Command>)
    requires Valid(lot)
    ensures var after := Run(lot, cmds);
      && |after| == |lot|
      && Valid(after)
      && OccupiedSlots(after) + AvailableSlots(after) == TotalSlots(lot)
    decreases |cmds|
  {
    if |cmds| > 0 {
      match cmds[0]
      case ParkCmd(v) =>
        ParkPreservesValid(lot, v.reg, v.color, v.kind);
        RunPreservesValid(Park(lot, v.reg, v.color, v.kind).lot, cmds[1..]);
      case LeaveCmd(n) =>
        LeavePreservesValid(lot, n);
        RunPreservesValid(Leave(lot, n).lot, cmds[1..]);
    }
  }

  /** Parks each vehicle in turn, collecting the outcomes. */
  function ParkAll(lot: seq<Slot>, vs: seq<Vehicle>): Step<seq<ParkOutcome>>
    decreases |vs|
  {
    if |vs| == 0 then Step(lot, [])
    else
      var first := Park(lot, vs[0].reg, vs[0].color, vs[0].kind);
      var rest := ParkAll(first.lot, vs[1..]);
      Step(rest.lot, [first.outcome] + rest.outcome)
  }

  /** With k available slots, k vehicles (or fewer) all get a slot, each
      using up one available slot. */
  lemma {:induction false} ParkAllAllocates(lot: seq<Slot>, vs: seq<Vehicle>)
    requires |vs| <= AvailableSlots(lot)
    ensures var r := ParkAll(lot, vs);
      && |r.outcome| == |vs|
      && (forall i :: 0 <= i < |vs| ==> r.outcome[i].Allocated?)
      && AvailableSlots(r.lot) == AvailableSlots(lot) - |vs|
    decreases |vs|
  {
    if |vs| > 0 {
      var v := vs[0];
      ParkTakesOne(lot, v);
      var first := Park(lot, v.reg, v.color, v.kind);
      ParkAllAllocates(first.lot, vs[1..]);
      var rest := ParkAll(first.lot, vs[1..]);
      var outs := [first.outcome] + rest.outcome;
      forall i | 0 <= i < |vs|
        ensures outs[i].Allocated?
      {
        if i > 0 {
          assert outs[i] == rest.outcome[i - 1];
        }
      }
      ParkAllFirst(lot, vs);
    }
  }

  lemma ParkAllFirst(lot: seq<Slot>, vs: seq<Vehicle>)
    requires |vs| > 0
    ensures var first := Park(lot, vs[0].reg, vs[0].color, vs[0].kind);
      var rest := ParkAll(first.lot, vs[1..]);
      ParkAll(lot, vs) == Step(rest.lot, [first.outcome] + rest.outcome)
  {
  }

  /** With a slot available, one `Park` succeeds and uses up one slot. */
  lemma ParkTakesOne(lot: seq<Slot>, v: Vehicle)
    requires AvailableSlots(lot) > 0
    ensures var r := Park(lot, v.reg, v.color, v.kind);
      r.outcome.Allocated? && AvailableSlots(r.lot) == AvailableSlots(lot) - 1
  {
    ParkCounts(lot, v.reg, v.color, v.kind);
  }

  /** Once k vehicles have filled the k available slots, one more `Park`
      reports Full and changes nothing. */
  lemma ParkAllThenFull(lot: seq<Slot>, vs: seq<Vehicle>, v: Vehicle)
    requires |vs| == AvailableSlots(lot)
    ensures var filled := ParkAll(lot, vs).lot;
      Park(filled, v.reg, v.color, v.kind) == Step(filled, Full)
  {
    ParkAllAllocates(lot, vs);
  }

  /** The allocation scenario of the command interface: on a 3-slot lot, two
      vehicles take slots 1 and 2; after slot 1 is freed, the next vehicle is
      given slot 1 again, not slot 3. */
  lemma ReuseFreedLowSlot()
    ensures var l0 := New(3);
      var p1 := Park(l0, "KA-01-HH-1234", "White", Car);
      var p2 := Park(p1.lot, "KA-01-HH-9999", "Black", Motorcycle);
      var q := Leave(p2.lot, 1);
      var p3 := Park(q.lot, "KA-01-HH-0001", "White", Car);
      && p1.outcome == Allocated(1)
      && p2.outcome == Allocated(2)
      && q.outcome == Freed
      && p3.outcome == Allocated(1)
  {
    var l0 := New(3);
    ParkOnValid(l0, "KA-01-HH-1234", "White", Car);
    var p1 := Park(l0, "KA-01-HH-1234", "White", Car);
    ParkPreservesValid(l0, "KA-01-HH-1234", "White", Car);
    ParkOnValid(p1.lot, "KA-01-HH-9999", "Black", Motorcycle);
    var p2 := Park(p1.lot, "KA-01-HH-9999", "Black", Motorcycle);
    ParkPreservesValid(p1.lot, "KA-01-HH-9999", "Black", Motorcycle);
    LeaveOnValid(p2.lot, 1);
    var q := Leave(p2.lot, 1);
    LeavePreservesValid(p2.lot, 1);
    ParkOnValid(q.lot, "KA-01-HH-0001", "White", Car);
  }
}
