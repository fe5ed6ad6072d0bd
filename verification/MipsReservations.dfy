/**
  LL/SC over whole runs of the MIPS cores (src/xxemul_mips.c, lines 40-55 and
  233-284; src/xxemul_mips64.c, lines 36-47 and 246-298; src/xxemul.c, lines
  358-386 and 505-538).  The argument is the same for both cores; it is made once
  about what events do to memory and to the reservation.
*/
module MipsReservations {
  import opened Wrappers
  import opened GuestMemory
  import opened MipsWords

  datatype View = View(mem: Memory, reservation: Option<Reservation>)

  /** An event links an address, ends any reservation, or leaves memory and reservation alone. */
  datatype Effect = Links(reservation: Reservation) | Ends | Keeps

  predicate Follows(v: View, e: Effect, w: View) {
    match e
    case Links(r) => w == View(v.mem, Some(r))
    case Ends => w.reservation == None
    case Keeps => w == v
  }

  /** Views before and after each of the events. */
  predicate IsHistory(views: seq<View>, effects: seq<Effect>) {
    |views| == |effects| + 1 && forall i | 0 <= i < |effects| :: Follows(views[i], effects[i], views[i + 1])
  }

  /** A reservation goes back to the event that linked it, and nothing has happened to memory since. */
  lemma {:induction false} ReservationHasLink(views: seq<View>, effects: seq<Effect>, j: nat) returns (i: nat)
    requires IsHistory(views, effects) && j < |views|
    requires views[0].reservation == None && views[j].reservation.Some?
    ensures i < j && effects[i] == Links(views[j].reservation.value)
    ensures forall k | i < k < j :: effects[k] == Keeps
    ensures views[i].mem == views[j].mem
  {
    i := j - 1;
    assert Follows(views[i], effects[i], views[i + 1]);
    if effects[i].Keeps? {
      i := ReservationHasLink(views, effects, j - 1);
    }
  }
}
