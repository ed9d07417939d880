/** Room-state reconciliation: decides from the room's reservation list, in
    the order the calendar API returns it, whether an occupancy signal books
    an ad-hoc reservation and which reservation a vacancy signal ends early. */
module ReservationController {
  import opened Options
  import opened TokenManager

  /** Title of the reservation booked when the sensor reports occupancy. */
  const AdhocEventTitle: string := "Quick Adhoc Reservation"
  /** Length of that reservation, in seconds. */
  const AdhocMeetingDuration: int := 1800

  /** A reservation as listed by the calendar API (epoch seconds). */
  datatype Reservation = Reservation(id: int, startsAt: int, endsAt: int)

  /** The body of a create request. */
  datatype NewReservation = NewReservation(title: string, startsAt: int, endsAt: int)

  /** A patch request: set `endsAt` of the reservation with this id. */
  datatype EndPatch = EndPatch(reservationId: int, endsAt: int)

  /** A reservation is under way at `now` when its closed interval contains `now`. */
  predicate Active(r: Reservation, now: int)
  {
    r.startsAt <= now <= r.endsAt
  }

  /** `k` is the lowest index of a reservation under way at `now`. */
  predicate IsFirstActive(rs: seq<Reservation>, now: int, k: int)
  {
    0 <= k < |rs| && Active(rs[k], now) && forall j | 0 <= j < k :: !Active(rs[j], now)
  }

  /** The reservation ids of the calendar are unique. */
  predicate DistinctIds(rs: seq<Reservation>)
  {
    forall i, j | 0 <= i < j < |rs| :: rs[i].id != rs[j].id
  }

  /** Reference definition of the first-match search, by recursion on the list. */
  function FirstActive(rs: seq<Reservation>, now: int): (k: Option<nat>)
    ensures k.Some? ==> IsFirstActive(rs, now, k.value)
    ensures k.None? <==> forall i | 0 <= i < |rs| :: !Active(rs[i], now)
  {
    if rs == [] then None
    else if Active(rs[0], now) then Some(0)
    else match FirstActive(rs[1..], now)
         case None => None
         case Some(k) => Some(k + 1)
  }

  /** There is at most one first match. */
  lemma FirstActiveUnique(rs: seq<Reservation>, now: int, k1: int, k2: int)
    requires IsFirstActive(rs, now, k1) && IsFirstActive(rs, now, k2)
    ensures k1 == k2
  {
  }

  /** The body of the ad-hoc create request booked at `now`. */
  function AdhocReservation(now: int): (r: NewReservation)
    ensures r.title == AdhocEventTitle
    ensures r.startsAt == now && r.endsAt - r.startsAt == AdhocMeetingDuration
  {
    NewReservation(AdhocEventTitle, now, now + AdhocMeetingDuration)
  }

  /** The Authorization header of every calendar call. A rejected refresh
      returns Python's `False`, written `None` here, which formats as the
      word `False`. */
  function AuthorizationHeader(token: Option<string>): (h: string)
    ensures |h| >= 7 && h[..7] == "Bearer "
    ensures token.Some? ==> h[7..] == token.value
  {
    "Bearer " + match token
                case Some(t) => t
                case None => "False"
  }

  /** Callers do not check for a rejected refresh: they send the same header
      as for a token whose text is `False`. */
  lemma RejectedRefreshSendsBearerFalse()
    ensures AuthorizationHeader(None) == AuthorizationHeader(Some("False"))
    ensures AuthorizationHeader(None) == "Bearer False"
  {
  }

  /** The header a calendar call carries: the token comes from the credential
      store, and a rejected refresh is not checked for. */
  method CalendarHeader(store: CredentialStore, now: int, reply: TokenReply) returns (header: string)
    modifies store`refreshToken, store`accessToken, store`expiresIn, store`updateDatetime
    ensures !NeedsRefresh(old(store.Row()), now) ==>
              header == "Bearer " + old(store.accessToken) && store.Row() == old(store.Row())
    ensures NeedsRefresh(old(store.Row()), now) && reply.status == StatusOk ==>
              header == "Bearer " + reply.tokens.accessToken
              && store.Row() == Refreshed(old(store.Row()), reply.tokens, now)
    ensures NeedsRefresh(old(store.Row()), now) && reply.status != StatusOk ==>
              header == "Bearer False" && store.Row() == old(store.Row())
  {
    var token, _ := store.GetAccessToken(now, reply);
    header := AuthorizationHeader(token);
  }

  /** The room is free at `now`: scans the list and stops at the first
      reservation under way. */
  method IsAvailable(rs: seq<Reservation>, now: int) returns (available: bool)
    ensures available <==> forall i | 0 <= i < |rs| :: !Active(rs[i], now)
    ensures available <==> FirstActive(rs, now) == None
  {
    for i := 0 to |rs|
      invariant forall j | 0 <= j < i :: !Active(rs[j], now)
    {
      if rs[i].startsAt <= now && rs[i].endsAt >= now {
        return false;
      }
    }
    return true;
  }

  /** The early-termination step of the vacancy signal: the first reservation
      under way at `now`, in list order, is patched to end at `now`; nothing
      is patched when none is under way. */
  method GetAndEnd(rs: seq<Reservation>, now: int) returns (patch: Option<EndPatch>)
    ensures patch.None? <==> forall i | 0 <= i < |rs| :: !Active(rs[i], now)
    ensures patch.Some? ==> patch.value.endsAt == now
    ensures patch.Some? ==> exists k :: IsFirstActive(rs, now, k) && patch.value.reservationId == rs[k].id
    ensures match FirstActive(rs, now)
            case None => patch == None
            case Some(k) => patch == Some(EndPatch(rs[k].id, now))
  {
    for i := 0 to |rs|
      invariant forall j | 0 <= j < i :: !Active(rs[j], now)
    {
      if rs[i].startsAt <= now && rs[i].endsAt >= now {
        assert IsFirstActive(rs, now, i);
        FirstActiveUnique(rs, now, i, FirstActive(rs, now).value);
        return Some(EndPatch(rs[i].id, now));
      }
    }
    return None;
  }

  /** The occupancy signal: books an ad-hoc reservation only when the room is
      free. `checkedAt` and `createdAt` are the two clock readings the
      handler takes, one for the availability check and one for the booking. */
  method Occupied(rs: seq<Reservation>, checkedAt: int, createdAt: int) returns (create: Option<NewReservation>)
    ensures create.Some? <==> forall i | 0 <= i < |rs| :: !Active(rs[i], checkedAt)
    ensures create.Some? ==> create.value == AdhocReservation(createdAt)
  {
    var available := IsAvailable(rs, checkedAt);
    if available {
      create := Some(AdhocReservation(createdAt));
    } else {
      create := None;
    }
  }

  /** The vacancy signal: always runs the early-termination step. */
  method Empty(rs: seq<Reservation>, now: int) returns (patch: Option<EndPatch>)
    ensures patch.None? <==> forall i | 0 <= i < |rs| :: !Active(rs[i], now)
    ensures patch.Some? ==> exists k :: IsFirstActive(rs, now, k) && patch.value == EndPatch(rs[k].id, now)
  {
    patch := GetAndEnd(rs, now);
  }

  /** The calendar after it applies a patch: every reservation with the
      patched id ends at the patched time. */
  function ApplyEnd(rs: seq<Reservation>, patch: EndPatch): (after: seq<Reservation>)
    ensures |after| == |rs|
    ensures forall i | 0 <= i < |rs| ::
              after[i].id == rs[i].id && after[i].startsAt == rs[i].startsAt
    ensures forall i | 0 <= i < |rs| && rs[i].id != patch.reservationId :: after[i] == rs[i]
    ensures forall i | 0 <= i < |rs| && rs[i].id == patch.reservationId :: after[i].endsAt == patch.endsAt
  {
    seq(|rs|, i requires 0 <= i < |rs| =>
      if rs[i].id == patch.reservationId then rs[i].(endsAt := patch.endsAt) else rs[i])
  }

  /** With unique ids, ending the first match changes that reservation's end
      to `now` and leaves every other reservation, later matches included,
      as it was. */
  lemma EndTouchesOnlyTarget(rs: seq<Reservation>, now: int, k: int)
    requires DistinctIds(rs) && IsFirstActive(rs, now, k)
    ensures |ApplyEnd(rs, EndPatch(rs[k].id, now))| == |rs|
    ensures ApplyEnd(rs, EndPatch(rs[k].id, now))[k] == rs[k].(endsAt := now)
    ensures forall j | 0 <= j < |rs| && j != k :: ApplyEnd(rs, EndPatch(rs[k].id, now))[j] == rs[j]
  {
  }

  /** The ended reservation still contains `now` (its interval is closed) and
      contains no later second. */
  lemma EndedCoversOnlyUpToNow(r: Reservation, now: int, t: int)
    requires Active(r, now)
    ensures Active(r.(endsAt := now), now)
    ensures Active(r.(endsAt := now), t) <==> r.startsAt <= t <= now
  {
  }

  /** Two occupancy signals in a row book at most once: once the calendar
      lists the first booking, a second check within its half-hour sees the
      room taken. */
  method OccupiedTwice(rs: seq<Reservation>, newId: int, checked1: int, created1: int, checked2: int, created2: int)
    returns (first: Option<NewReservation>, second: Option<NewReservation>)
    requires created1 <= checked2 <= created1 + AdhocMeetingDuration
    ensures !(first.Some? && second.Some?)
    ensures first.Some? <==> forall i | 0 <= i < |rs| :: !Active(rs[i], checked1)
  {
    first := Occupied(rs, checked1, created1);
    var listed := rs;
    if first.Some? {
      listed := rs + [Reservation(newId, first.value.startsAt, first.value.endsAt)];
      assert Active(listed[|rs|], checked2);
    }
    second := Occupied(listed, checked2, created2);
  }

  /** A vacancy signal followed by an occupancy signal in the same second:
      if the vacancy signal ended a reservation, the ended reservation still
      contains that second, so the room is reported booked; if it ended none,
      the room is booked anew. */
  method EmptyThenOccupiedSameSecond(rs: seq<Reservation>, now: int, createdAt: int)
    returns (patch: Option<EndPatch>, create: Option<NewReservation>)
    ensures create.Some? <==> patch.None?
  {
    patch := Empty(rs, now);
    var listed := rs;
    if patch.Some? {
      var k :| IsFirstActive(rs, now, k) && patch.value == EndPatch(rs[k].id, now);
      listed := ApplyEnd(rs, patch.value);
      assert Active(listed[k], now);
    }
    create := Occupied(listed, now, createdAt);
  }
}
