# Fare splitting for shared trips

This project models the fare-splitting core of a small trip-sharing backend. A
trip has a total cost and an ordered list of passengers. Each passenger row
has a `share_amount`, the part of the cost that passenger owes. Two operations
compute those shares:

- `compute_split(trip)` in `utils/fare.py`. Every trip handler except
  delete-trip calls it: create, split, list, get, split summary and
  delete-passenger. It sums the current shares and clamps `total_cost - sum` at zero to get the base. It divides the
  base by `max(n, 1)`. Then it raises every passenger's share, in place, by that
  equal part. The passenger's previous share plays the role of a surcharge.
- The `compute_split` endpoint in `routers/passengers.py`. It is an older plain
  equal split. A missing trip, or a trip without passengers, gives the empty
  list. Otherwise every share is overwritten with `total_cost / n`.

Modules:

- `Models` (`models.dfy`): the `Passenger` and `Trip` classes with the fields
  the fare code reads and writes. `Shares` reads the current share amounts.
- `Sums` (`sums.dfy`): the left-to-right sum that Python's `sum` computes, and
  lemmas about it.
- `Fare` (`fare.dfy`): the specification functions `Base`, `EqualShare` and
  `Split` over share sequences. It also holds the in-place method
  `ComputeSplit`, which is proved to leave exactly `Split` of the old shares.
  The lemmas cover conservation, clamping and idempotence.
- `PassengersRouter` (`passengers.dfy`): the plain equal split `EqualSplit`,
  and the handler `ComputeSplit` proved against it.
- `TripLifecycle` (`trips.dfy`): what the trip handlers' calls imply over a
  trip's life. Passengers join with the default share 0.0. Every read
  splits again. Deleting a passenger splits over the passengers left.

Amounts are exact `real`s. The source's `Float` columns are approximated by
them.

The methods require the trip's passenger list to hold each passenger row only
once (`Models.Distinct`). An ORM relationship collection has this property.

The passenger table has no surcharge column (`models.py:22-28`).
`utils/fare.py:4` sums the current `share_amount` values as `total_surcharge`,
and line 10 adds the equal part to the previous `share_amount`. The model
follows that. In exact arithmetic this feedback does not drift:
`Fare.SplitIdempotent` and `TripLifecycle.RecomputeStable` prove that repeated
splits leave the shares of the first split.

## Model

| member | source | states |
|---|---|---|
| Models.Passenger.constructor | models.py:26 | a new passenger row starts with a share of 0.0 |
| Models.Trip.constructor | models.py:13-20 | a trip holds the given total cost and the given passenger list, in order |
| Models.Shares | models.py:26 | one share per passenger, in list order, each the passenger's current `share_amount` |
| Fare.TotalShareAmount | utils/fare.py:4 | the loop over the passengers returns the sum of their current shares |
| Fare.Base | utils/fare.py:6 | the base is never negative and never below `total_cost - sum`, and it equals one of them: it is `max(total_cost - sum, 0)` |
| Fare.Divisor | utils/fare.py:7 | the divisor is `max(n, 1)`: at least 1 and at least n, and equal to n or to 1, so an empty trip divides by 1 |
| Fare.EqualShare | utils/fare.py:6-7 | the equal part is never negative, and `max(n, 1)` equal parts make up the base exactly |
| Fare.Split | utils/fare.py:9-10 | the passenger count is kept, no share decreases, and every pairwise difference between shares is preserved, so all passengers get the same increment |
| Fare.SplitAddsBase | utils/fare.py:4-10 | with at least one passenger, a split raises the sum of the shares by exactly the base |
| Fare.SplitSum | utils/fare.py:4-10 | with at least one passenger, the new shares sum to `max(total_cost, old sum)` |
| Fare.SplitConserves | utils/fare.py:4-10 | with at least one passenger and old shares summing to at most `total_cost`, the new shares sum to `total_cost` |
| Fare.SplitSaturated | utils/fare.py:6-10 | when the old shares already sum to at least `total_cost`, the equal part is 0 and every share is left unchanged |
| Fare.SplitIdempotent | utils/fare.py:4-10 | splitting twice in a row gives the same shares as splitting once |
| Fare.SplitOfEqualShares | utils/fare.py:7-10 | equal shares whose sum is at most `total_cost` all become `total_cost / n` |
| Fare.ComputeSplit | utils/fare.py:3-12 | updates the shares in place to `Split` of the old shares; returns the trip's own list; changes neither the trip nor anything outside its passengers; an empty list gives an empty result |
| PassengersRouter.EqualSplit | routers/passengers.py:27-31 | n equal amounts, which sum to `total_cost` when n >= 1 |
| PassengersRouter.ComputeSplit | routers/passengers.py:21-34 | a missing trip gives `[]`. Otherwise it returns the trip's own list, and every passenger's share becomes `total_cost / n` whatever it was before, so a second call changes nothing. An empty list is returned as is |
| TripLifecycle.SplitOfNewTrip | routers/passengers.py:11 | a trip whose passengers all hold the default share 0.0 splits into `total_cost / n` each when `total_cost >= 0`, the same as the passengers router; a negative cost leaves every share at 0.0 |
| TripLifecycle.RecomputeStable | routers/trips.py:72-78 | any number of reads, each splitting again, leaves the shares of the first split |
| TripLifecycle.DeleteKeepsTotal | routers/trips.py:145-149 | deleting a passenger with a non-negative share from a trip whose shares summed to its cost, then splitting, sums to the cost again |
| TripLifecycle.DeleteFromEvenSplit | routers/trips.py:145-149 | deleting any passenger from an evenly split trip of non-negative cost, then splitting, gives `total_cost / (n - 1)` to each passenger left |

## Left out

- Floating point: amounts are exact reals. IEEE-754 rounding in the division and the sum is not modelled. Conservation and idempotence hold in exact arithmetic only.
- Persistence: the trip lookup by id is a given `Trip` (or `null` for "not found"). `db.add`, `commit`, `refresh`, `rollback` and the ORM relationship mechanics are not modelled.
- HTTP routing, `Depends`, `HTTPException` status codes and response shaping (`routers/trips.py`, `routers/auth.py`, `routers/users.py`, and `create_passenger` and `get_passengers` in `routers/passengers.py`) are framework plumbing with no logic of their own.
- The create-trip path (`routers/trips.py:20-49`) reads `start`, `date` and `passengers` from a request body that has none of them (`schemas/trip_schema.py:3-6`), and passes `start`, `date` and `surcharge`, which the `Trip` and `Passenger` models do not have. It fails before it stores a passenger or splits anything, so it is not modelled. The all-0.0 starting state of `TripLifecycle.SplitOfNewTrip` is what passengers added through `create_passenger` get (`routers/passengers.py:11`, column default 0.0 at `models.py:26`).
- The try/except wrappers that print a warning around the split calls: the modelled split cannot fail.
- Password hashing and JWT tokens (`utils/auth.py`), the request schemas (`schemas/`), app wiring (`main.py`) and table creation (`create_db.py`).
- Aliasing inside a passenger list: a list holding the same row twice is excluded by `Models.Distinct`. The ORM never produces such a list.
