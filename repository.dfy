/** The reservations already stored, and the three read queries the validator
    makes on them. The store is a sequence; each query keeps the stored
    reservations that match the candidate on some of its fields. */
module ReservationRepository {
  import opened Calendar

  type SpotId = int
  type UserId = int

  /** A reservation, stored or candidate: the day booked, the spot, the user. */
  datatype Reservation = Reservation(bookedAt: Date, spot: SpotId, user: UserId)

  /** The stored reservations that satisfy keep, in store order and with
      their multiplicities. */
  function Where(store: seq<Reservation>, keep: Reservation -> bool): (found: seq<Reservation>)
    ensures forall r :: multiset(found)[r] == if keep(r) then multiset(store)[r] else 0
    ensures forall r :: r in found <==> r in store && keep(r)
    decreases |store|
  {
    if store == [] then []
    else
      var n := |store| - 1;
      assert store == store[..n] + [store[n]];
      var found := Where(store[..n], keep);
      if keep(store[n]) then found + [store[n]] else found
  }

  /** The positions in the store of the reservations that satisfy keep. */
  ghost function PositionsWhere(store: seq<Reservation>, keep: Reservation -> bool): set<nat> {
    set i: nat | i < |store| && keep(store[i])
  }

  /** The matching positions of a store are those of its prefix, plus the
      last position when the last reservation matches. */
  lemma PositionsWhereStep(store: seq<Reservation>, keep: Reservation -> bool)
    requires store != []
    ensures var n := |store| - 1;
      PositionsWhere(store, keep)
      == PositionsWhere(store[..n], keep) + (if keep(store[n]) then {n} else {})
  {
    var n := |store| - 1;
    var before := PositionsWhere(store[..n], keep);
    forall i: nat | i < n ensures i in PositionsWhere(store, keep) <==> i in before {
      assert store[i] == store[..n][i];
    }
  }

  /** A query returns one reservation per matching position of the store. */
  lemma {:induction false} WhereSize(store: seq<Reservation>, keep: Reservation -> bool)
    ensures |Where(store, keep)| == |PositionsWhere(store, keep)|
    decreases |store|
  {
    if store != [] {
      var n := |store| - 1;
      WhereSize(store[..n], keep);
      PositionsWhereStep(store, keep);
      assert n !in PositionsWhere(store[..n], keep);
    }
  }

  /** Stored reservations booked on the candidate's day for the candidate's spot. */
  function FindReservationsByDateAndSpot(store: seq<Reservation>, candidate: Reservation): (found: seq<Reservation>)
    ensures forall r :: r in found <==>
      r in store && r.bookedAt == candidate.bookedAt && r.spot == candidate.spot
  {
    Where(store, (r: Reservation) => r.bookedAt == candidate.bookedAt && r.spot == candidate.spot)
  }

  /** Stored reservations booked on the candidate's day, whatever the spot. */
  function FindReservationsByDate(store: seq<Reservation>, candidate: Reservation): (found: seq<Reservation>)
    ensures forall r :: r in found <==> r in store && r.bookedAt == candidate.bookedAt
    ensures |found| == CountOn(store, candidate.bookedAt)
  {
    var keep := (r: Reservation) => r.bookedAt == candidate.bookedAt;
    WhereSize(store, keep);
    assert PositionsWhere(store, keep) == PositionsOn(store, candidate.bookedAt);
    Where(store, keep)
  }

  /** Stored reservations of the candidate's user, whatever the day. */
  function FindReservationsByUser(store: seq<Reservation>, candidate: Reservation): (found: seq<Reservation>)
    ensures forall r :: r in found <==> r in store && r.user == candidate.user
  {
    Where(store, (r: Reservation) => r.user == candidate.user)
  }

  /** The positions in the store of the reservations booked on day d. */
  ghost function PositionsOn(store: seq<Reservation>, d: Date): set<nat> {
    set i: nat | i < |store| && store[i].bookedAt == d
  }

  /** How many stored reservations are booked on day d. */
  ghost function CountOn(store: seq<Reservation>, d: Date): nat {
    |PositionsOn(store, d)|
  }

  /** Storing one more reservation raises the count of its own day by one
      and leaves every other day's count alone. */
  lemma CountOnAppend(store: seq<Reservation>, c: Reservation, d: Date)
    ensures CountOn(store + [c], d) == CountOn(store, d) + (if c.bookedAt == d then 1 else 0)
  {
    var before := PositionsOn(store, d);
    assert |store| !in before;
    if c.bookedAt == d {
      assert PositionsOn(store + [c], d) == before + {|store|};
    } else {
      assert PositionsOn(store + [c], d) == before;
    }
  }
}
