# EventBoard room-sensor bridge, modelled in Dafny

The EventBoard sensor app is a small Flask service. It connects a room-occupancy
sensor to the EventBoard calendar API. An `/occupied` signal books a half-hour
ad-hoc reservation when the room is free. An `/empty` signal ends the reservation
under way at that moment. All calendar calls carry an OAuth 2.0 bearer token. The
service keeps that token in a one-row credentials table and renews it with the
refresh-token grant (section 6 of RFC 6749) shortly before it expires.

This project models the decision logic, with the network replies and the clock
passed in as inputs:

- `options.dfy`, module `Options`: the `Option` datatype. `None` stands for
  Python's `None`, and in a token result it stands for the `False` returned
  after a rejected refresh.
- `token_manager.dfy`, module `TokenManager`: the credential row as a value
  (`CredentialRow`) and as a class updated in place (`CredentialStore`). It
  holds the staleness test `NeedsRefresh`, the refresh request body
  `RefreshForm`, and `GetAccessToken`.
- `reservation_controller.dfy`, module `ReservationController`: reservations,
  the first-match search (`FirstActive`, the reference definition), the two
  scanning loops `IsAvailable` and `GetAndEnd`, the create payload, and the two
  signal handlers `Occupied` and `Empty`. Two client methods compose the
  handlers: `OccupiedTwice` and `EmptyThenOccupiedSameSecond`.

Behaviours of the code that the model keeps:

- A failed refresh does not abort the caller. The token comes back as `False`,
  and the callers format it into the header `Bearer False`
  (`RejectedRefreshSendsBearerFalse`).
- An unset timestamp does not force a refresh unconditionally. It forces one
  only when `now > expires_in - 60` (`UnsetTimestampForcesRefresh`).
- The `/occupied` handler reads the clock four times: in the availability
  check (line 125), in the booking (line 135), and once inside each of the two
  token acquisitions (line 88, reached from lines 117 and 134). The decision
  uses two of these readings, which the model takes as `checkedAt` and
  `createdAt`. The token acquisitions are not composed with the handlers (see
  "## Left out").
- Reservation intervals are closed. A reservation ended by `/empty` at `now`
  still contains `now`. So an `/occupied` signal in the same second reports the
  room as already booked (`EmptyThenOccupiedSameSecond`).

## Model

| member | source | states |
|---|---|---|
| `TokenManager.RefreshForm` | eventboard-example-api-app/eb_sensor_app.py:92-95 | the refresh body has exactly the fields client_id, grant_type, client_secret and refresh_token; grant_type is `refresh_token` and the other three are the stored values |
| `TokenManager.RefreshFormIsRefreshGrant` | eventboard-example-api-app/eb_sensor_app.py:92-96 | an authorization server reading the body as an RFC 6749 section 6 refresh grant recovers exactly the stored client id, client secret and refresh token |
| `TokenManager.UnsetTimestampForcesRefresh` | eventboard-example-api-app/eb_sensor_app.py:87-90 | with update_datetime NULL or 0, a refresh is due iff now > expires_in - 60 |
| `TokenManager.StalenessPersists` | eventboard-example-api-app/eb_sensor_app.py:90 | a row that is stale at some time stays stale at every later time |
| `TokenManager.RefreshedStaleIff` | eventboard-example-api-app/eb_sensor_app.py:90-103 | after a refresh at t, the row is stale at now iff now - t > new expires_in - 60, whatever it held before |
| `TokenManager.FreshRightAfterRefresh` | eventboard-example-api-app/eb_sensor_app.py:97-105 | right after a successful refresh, no refresh is due at the same now iff the new expires_in is at least 60 |
| `TokenManager.UpdatedAt` | eventboard-example-api-app/eb_sensor_app.py:87 | the time of the last refresh: the stored update_datetime, or 0 when the column is NULL |
| `TokenManager.NeedsRefresh` | eventboard-example-api-app/eb_sensor_app.py:90 | the staleness test: more time has passed since the last refresh than expires_in - 60 |
| `TokenManager.Refreshed` | eventboard-example-api-app/eb_sensor_app.py:99-103 | the row after the `UPDATE`: access token, refresh token and expires_in come from the reply, the last-refresh time reads as now, and client id and secret are kept |
| `TokenManager.CredentialStore.constructor` | eventboard-example-api-app/eb_sensor_app.py:85-86 | the store holds exactly the given credentials row |
| `TokenManager.CredentialStore.GetAccessToken` | eventboard-example-api-app/eb_sensor_app.py:83-110 | a refresh request is sent iff the stored row is stale, and it is the refresh form of the stored row. When the row is fresh, the stored access token is returned and nothing changes. On a 200 reply, the refresh token, access token and expires_in become the reply's values and update_datetime becomes now, all together, and the new access token is returned. On any other status, `False` is returned and the row is unchanged. The client id and secret never change, and a returned token always equals the stored access token |
| `ReservationController.Active` | eventboard-example-api-app/eb_sensor_app.py:127 | a reservation is under way at now iff starts_at <= now <= ends_at (the same test as line 154) |
| `ReservationController.FirstActive` | eventboard-example-api-app/eb_sensor_app.py:153-154 | returns the lowest index whose closed interval contains now, or None iff no reservation contains now |
| `ReservationController.FirstActiveUnique` | eventboard-example-api-app/eb_sensor_app.py:153-166 | two lowest matching indices are the same index |
| `ReservationController.AdhocReservation` | eventboard-example-api-app/eb_sensor_app.py:136-142 | the create body has title "Quick Adhoc Reservation" and starts_at = now, and ends_at - starts_at = 1800 (the constants of lines 23-24) |
| `ReservationController.AuthorizationHeader` | eventboard-example-api-app/eb_sensor_app.py:117 | the header is "Bearer " followed by the token text (also lines 134 and 152) |
| `ReservationController.RejectedRefreshSendsBearerFalse` | eventboard-example-api-app/eb_sensor_app.py:117 | a rejected refresh (`False`) formats to "Bearer False", the same header as a token whose text is False (also lines 134 and 152) |
| `ReservationController.CalendarHeader` | eventboard-example-api-app/eb_sensor_app.py:117 | composed with `GetAccessToken`. On a fresh row the header is "Bearer " plus the stored access token and the store is unchanged. On a stale row with a 200 reply the header is "Bearer " plus the reply's access token and the store holds the refreshed row. On a stale row with any other status the header is "Bearer False" and the store is unchanged (also lines 134 and 152) |
| `ReservationController.IsAvailable` | eventboard-example-api-app/eb_sensor_app.py:123-129 | returns true iff no reservation satisfies starts_at <= now <= ends_at (true for an empty list), and agrees with the reference search |
| `ReservationController.GetAndEnd` | eventboard-example-api-app/eb_sensor_app.py:149-166 | issues at most one patch, and none iff no reservation contains now. A patch targets the id of the lowest-index reservation containing now and sets ends_at to now |
| `ReservationController.Occupied` | eventboard-example-api-app/eb_sensor_app.py:170-178 | issues a create iff the room is available at the check time; the created body is the ad-hoc reservation at the booking time |
| `ReservationController.Empty` | eventboard-example-api-app/eb_sensor_app.py:181-185 | always runs the termination step. It issues no patch iff nothing is under way; otherwise it issues one patch, ending the first active reservation at now |
| `ReservationController.ApplyEnd` | eventboard-example-api-app/eb_sensor_app.py:159-165 | not code of the app: what the calendar does with the PATCH sent here. Every reservation with the patched id ends at the patched time; ids, start times and all other reservations are kept |
| `ReservationController.EndTouchesOnlyTarget` | eventboard-example-api-app/eb_sensor_app.py:153-166 | with unique ids, applying the patch changes only the first match's ends_at, to now; every other reservation, later active ones included, is untouched |
| `ReservationController.EndedCoversOnlyUpToNow` | eventboard-example-api-app/eb_sensor_app.py:159-164 | an ended reservation still contains now and contains no later second |
| `ReservationController.OccupiedTwice` | eventboard-example-api-app/eb_sensor_app.py:170-178 | two occupancy signals book at most once when the second check falls within the first booking's half hour |
| `ReservationController.EmptyThenOccupiedSameSecond` | eventboard-example-api-app/eb_sensor_app.py:170-185 | an occupancy signal in the same second as a vacancy signal books iff the vacancy signal ended nothing |

## Left out

- SQLite connection handling and schema setup (`connect_db`, `init_db`, `initdb_command`, `get_db`, `close_db`): library plumbing. The one credentials row is the `CredentialStore` object.
- Flask configuration, routing, query-string parsing and the human-readable reply strings, including the new reservation id echoed by `/occupied`: these belong to the web framework.
- The HTTP calls and JSON decoding. The token endpoint's answer is the `TokenReply` parameter. Requests the code would send are returned as values (`Form`, `NewReservation`, `EndPatch`). Reservation lists are parameters, in the order the API returns them. The JSON envelopes (`reservation` and `reservations` keys) and URLs are not modelled.
- Failures of those calls: a failing `requests` call, or a reply missing a key, raises an exception out of the handler instead of returning a value. For example, after `Bearer False` the GET's error body makes `events['reservations']` at line 126 raise a `KeyError`. The model has no such outcome: every call here returns.
- `int()` conversion of `starts_at` and `ends_at`: reservations carry integers already, so a malformed field is not modelled.
- The wall clock (`time.mktime` of local time): every reading is an integer parameter. Daylight-saving ambiguity is not modelled.
- The token acquisitions inside `get_calendar_events`, `create_calendar_event` and `get_and_end` are not composed with the signal handlers. Those handlers take the reservation list as already fetched.
- Concurrent requests racing on the refresh: the code has no locking, and modelling the race would be a concurrency model.
- `ApplyEnd` models what the calendar does with a patch. It states the post-state lemmas and builds the re-listed reservations in `EmptyThenOccupiedSameSecond`. The calendar service itself is not modelled.
