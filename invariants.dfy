/** The rules the validator exists to keep, stated over the whole store, and
    the proof that storing a candidate each check accepts keeps its rule. */
module StoreInvariants {
  import opened Calendar
  import opened ReservationRepository
  import opened ValidateReservation

  /** No two stored reservations share a day and a spot. */
  ghost predicate OneReservationPerSpotPerDay(store: seq<Reservation>) {
    forall i, j :: 0 <= i < j < |store| && store[i].bookedAt == store[j].bookedAt ==>
      store[i].spot != store[j].spot
  }

  /** No day holds more reservations than it takes. */
  ghost predicate WithinDailyCaps(store: seq<Reservation>) {
    forall d :: CountOn(store, d) <= DailyCap(d)
  }

  /** No user has two stored reservations with the same ISO week number and
      the same calendar year. */
  ghost predicate OneReservationPerUserPerWeekNumberAndYear(store: seq<Reservation>) {
    forall i, j :: 0 <= i < j < |store| && store[i].user == store[j].user ==>
      !SameWeekNumberAndYear(store[i].bookedAt, store[j].bookedAt)
  }

  /** No user has two stored reservations in the same Monday-to-Sunday week. */
  ghost predicate OneReservationPerUserPerIsoWeek(store: seq<Reservation>) {
    forall i, j :: 0 <= i < j < |store| && store[i].user == store[j].user ==>
      MondayOf(store[i].bookedAt) != MondayOf(store[j].bookedAt)
  }

  lemma CheckSpotKeepsSpotsFree(store: seq<Reservation>, reservation: Reservation)
    requires OneReservationPerSpotPerDay(store)
    requires CheckSpot(store, reservation) == Accepted
    ensures OneReservationPerSpotPerDay(store + [reservation])
  {
    var after := store + [reservation];
    forall i, j | 0 <= i < j < |after| && after[i].bookedAt == after[j].bookedAt
      ensures after[i].spot != after[j].spot
    {
      if j == |store| {
        assert after[i] in store;
      }
    }
  }

  lemma CheckByDayKeepsCaps(store: seq<Reservation>, reservation: Reservation, today: Date)
    requires WithinDailyCaps(store)
    requires CheckByDay(store, reservation, today) == Accepted
    ensures WithinDailyCaps(store + [reservation])
    ensures today < reservation.bookedAt
  {
    forall d ensures CountOn(store + [reservation], d) <= DailyCap(d) {
      CountOnAppend(store, reservation, d);
    }
  }

  lemma CheckByUserAndByWeekKeepsWeeksFree(store: seq<Reservation>, reservation: Reservation)
    requires OneReservationPerUserPerWeekNumberAndYear(store)
    requires CheckByUserAndByWeek(store, reservation) == Accepted
    ensures OneReservationPerUserPerWeekNumberAndYear(store + [reservation])
  {
    var after := store + [reservation];
    forall i, j | 0 <= i < j < |after| && after[i].user == after[j].user
      ensures !SameWeekNumberAndYear(after[i].bookedAt, after[j].bookedAt)
    {
      if j == |store| {
        assert after[i] in store;
      }
    }
  }

  lemma CheckByUserAndByIsoWeekKeepsWeeksFree(store: seq<Reservation>, reservation: Reservation)
    requires OneReservationPerUserPerIsoWeek(store)
    requires CheckByUserAndByIsoWeek(store, reservation) == Accepted
    ensures OneReservationPerUserPerIsoWeek(store + [reservation])
  {
    var after := store + [reservation];
    forall i, j | 0 <= i < j < |after| && after[i].user == after[j].user
      ensures MondayOf(after[i].bookedAt) != MondayOf(after[j].bookedAt)
    {
      if j == |store| {
        assert after[i] in store;
      }
    }
  }
}
