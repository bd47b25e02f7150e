# Lead distribution core

A Dafny model of the part of the lead-distribution service that decides who handles an
incoming contact (`distribution.py`), and of the request handler that uses it
(`create_contact` in `routers/contacts.py`):

- **Load accounting.** An operator's load is the number of its contacts whose status is
  exactly `"active"` (`LoadAccounting.Load`).
- **Capacity-aware weighted selection.** `select_operator` reads a source's weight rows. It drops
  inactive operators and operators at or over `max_load`, keeping the two columns
  `available_operators` and `available_weights` index-aligned. It then picks one survivor:
  uniformly when the surviving weights sum to 0, otherwise by a cumulative walk against a random
  value `r`, which returns the first operator whose running total is `>= r` and falls back to the
  last survivor (`Selection.SelectOperator`, specified by the function `Selection.Select`).
- **Lead deduplication.** `find_or_create_lead` runs up to three lookups: by external id, then
  phone, then email. Each lookup runs only when its key is given (non-empty). The first hit is
  returned; otherwise a new lead carrying exactly the supplied fields is stored
  (`LeadResolution.LeadTable.FindOrCreateLead`, specified by `LeadResolution.Resolve`).
- **Contact creation.** `create_contact` checks the source exists, resolves the lead, selects an
  operator and stores an `"active"` contact assigned to it, or to nobody
  (`Contacts.CreateContact`).

The database becomes plain data:
- contacts and weight rows are sequences of datatypes;
- each weight row carries a snapshot of its operator (`is_active`, `max_load`);
- the lead table is the class `LeadResolution.LeadTable`, whose method updates a `seq<Lead>` field.

The two random draws are parameters:
- `r` is the value of `random.uniform(0, total_weight)`. Any real is accepted, and the lemmas
  that need `0 < r` or `r <= total` say so.
- `choice` is the index `random.choice` uses. It must be in range whenever there is an operator
  to choose from.

Weights are `real`. The request schema accepts any float as a weight, so the selection itself
assumes nothing about their sign. The lemmas that need non-negative weights require
`NonNegative`.

Behaviours of the code worth stating:
- `select_operator` keeps the surviving operators in weight-row order. The order matters for the
  walk and for the uniform pick.
- `random.uniform(0, total)` can return 0 and `total`. With a draw of 0 the
  walk stops at index 0 whenever the first surviving weight is non-negative, 0 included
  (`Selection.ZeroDrawTakesLeadingZeroWeight`).
  So "a weight-0 operator is never chosen" holds only for indices after the first, or for `r > 0`.
- The lookups use `scalar_one_or_none`, which raises on a second row. The model's lookup takes the
  first row. `LeadResolution.FindByIsOnlyMatch` proves that under the table's invariant there is
  never a second row, so the lookup never raises and the first row is the only one.
- An empty external id is skipped by the lookup (the truthiness test) but stored on the new lead.
  The unique constraint on `leads.external_id` covers the empty string. So once a lead with an
  empty external id is stored, any later request with an empty external id whose phone and email
  lookups miss is rejected, whoever sends it (`LeadResolution.EmptyExternalIdCollides`). This is
  the only way the insert can fail (`LeadResolution.TakenOnlyWhenEmpty`). The model returns `Err(DuplicateExternalId)` there.

## Model

| member | source | states |
|---|---|---|
| `LoadAccounting.Load` | distribution.py:9-15 | the load is a natural number no larger than the number of contacts |
| `LoadAccounting.LoadIsCount` | distribution.py:9-15 | the load equals the number of positions holding a contact of that operator whose status is exactly "active" |
| `LoadAccounting.LoadAfterAppend` | distribution.py:11-13 | storing one contact raises its operator's load by one when its status is "active" and leaves every other load unchanged |
| `Selection.RowsForMembers` | distribution.py:22-27 | the query returns exactly the weight rows of the requested source |
| `Selection.EligibleMembers` | distribution.py:36-46 | a row survives the filter if and only if its operator is active and its load is below `max_load` |
| `Selection.FirstReaching` | distribution.py:58-62 | the walk stops at an index whose running total is `>= r`, and every earlier running total is `< r`; it finds nothing only when every running total is `< r` |
| `Selection.Select` | distribution.py:18-64 | no operator exactly when nothing survives the filter (in particular when the source has no rows); a returned operator is active, under capacity, and belongs to one of the source's rows |
| `Selection.SelectOperator` | distribution.py:18-64 | the loops build the aligned columns and walk them, and the result is what `Select` specifies |
| `Selection.NoCapacityNeverSelected` | distribution.py:41-43 | an operator with `max_load <= 0` is never returned, whatever its weight |
| `Selection.FullOperatorNotEligible` | distribution.py:41-43 | an operator whose load has reached `max_load` is filtered out |
| `Selection.ZeroTotalUsesChoice` | distribution.py:52-54 | when the surviving weights sum to 0, `select_operator` returns the operator of the surviving row at the injected index, whatever `r` is |
| `Selection.ZeroTotalReachesEverySurvivor` | distribution.py:52-54 | when the surviving weights sum to 0, every surviving row's operator is returned for some injected index |
| `Selection.WeightedPicksFirstReaching` | distribution.py:56-62 | when the surviving weights do not sum to 0, `select_operator` returns the operator of the first surviving row whose running total reaches `r` |
| `Selection.WeightedFallsBackToLast` | distribution.py:58-64 | when the surviving weights do not sum to 0 and no running total reaches `r`, `select_operator` returns the operator of the last surviving row |
| `Selection.WalkSkipsZeroWeight` | distribution.py:58-62 | the walk never stops at a zero weight that has a predecessor |
| `Selection.WalkStopsAtPositiveWeight` | distribution.py:56-62 | with `r > 0` the walk stops only at a positive weight |
| `Selection.WalkPicksInterval` | distribution.py:56-62 | with non-negative weights and `r > 0`, index `i` is chosen if and only if `r` lies in `(total before i, total after i]`, an interval as wide as weight `i` |
| `Selection.PositiveWeightReachable` | distribution.py:56-62 | with non-negative weights every positive weight is chosen by some `r` in `(0, total]` |
| `Selection.FallbackIffBeyondTotal` | distribution.py:58-64 | the fallback to the last operator happens only when `r` exceeds the total; with non-negative weights it always happens then |
| `Selection.ZeroDrawTakesLeadingZeroWeight` | distribution.py:56-62 | for any weights whose first entry is non-negative (0 included), a draw of exactly 0 stops at index 0 |
| `Selection.ZeroTotalIffAllZero` | distribution.py:52-53 | with non-negative weights the total is 0 if and only if every weight is 0 |
| `Selection.PrefixMonotone` | distribution.py:58-60 | with non-negative weights the running total never decreases |
| `LeadResolution.FindBy` | distribution.py:75-78 | a lookup returns a stored lead carrying the key, and finds nothing if and only if no stored lead carries it |
| `LeadResolution.Resolve` | distribution.py:74-96 | a lookup hit is a stored lead |
| `LeadResolution.ResolveMissIffNoKeyMatches` | distribution.py:74-96 | every lookup misses if and only if no stored lead carries any of the given keys |
| `LeadResolution.ResolveHitCarriesAKey` | distribution.py:74-96 | a returned lead carries one of the given keys |
| `LeadResolution.FindByIsOnlyMatch` | distribution.py:78 | when given keys are unique, a stored lead carrying the key is the one the lookup returns |
| `LeadResolution.FirstHitWins` | distribution.py:74-96 | the lead carrying the first given key (external id, then phone, then email) that has a match is returned, whatever the later keys would find |
| `LeadResolution.ExternalIdWins` | distribution.py:74-80 | a stored lead with the given external id is returned, whatever the phone and email |
| `LeadResolution.ExternalIdOverPhoneExample` | distribution.py:74-88 | with lead A (external id "x1") and lead B (phone "555"), a request with both keys gets A |
| `LeadResolution.CreatedLeadKeepsKeysUnique` | distribution.py:98-104 | storing a lead after every lookup missed keeps non-empty external ids, phones and emails unique |
| `LeadResolution.CreatedLeadKeepsExternalIdsUnique` | distribution.py:98-105 | the insert keeps the unique constraint on external ids unless the external id is already taken |
| `LeadResolution.TakenOnlyWhenEmpty` | distribution.py:74-105 | after every lookup missed, the external id can be taken only if it is the empty string |
| `LeadResolution.CreatedLeadIsFoundAgain` | distribution.py:74-107 | a second request with the same given external id returns the lead the first request created |
| `LeadResolution.EmptyExternalIdCollides` | distribution.py:74-105 | for every table holding a lead with external id "", a request with external id "" whose phone and email lookups miss resolves to nothing and its insert collides with that row |
| `LeadResolution.EmptyExternalIdExample` | distribution.py:74-105 | two senders with external id "" and different phones: the second misses every lookup and collides with the first |
| `LeadResolution.LeadTable.FindOrCreateLead` | distribution.py:67-107 | returns the resolved lead and changes nothing; otherwise stores exactly the supplied fields under a fresh id, or fails without change when the external id is taken; the table's uniqueness invariant is kept |
| `Contacts.CreateContact` | routers/contacts.py:16-50 | fails with `SourceNotFound` exactly when the source is unknown, and otherwise fails only when the lead insert is rejected; the lead table ends as `FindOrCreateLead` leaves it (unchanged after a hit or a failure, one new lead after a creation); on success exactly one "active" contact with the next contact id is appended for the resolved lead, with the operator `Select` chooses; that operator's load grows by one, every other load is unchanged, and the operator stays within `max_load` |

## Left out

- HTTP plumbing: the routers other than `create_contact`, the 404 and 400 responses, the list and
  statistics endpoints, and the utilization percentage with its float rounding.
- Validation of e-mail syntax (`EmailStr`): emails are plain strings.
- The `random` module: the uniform draw and the choice index are parameters.
- Floating point: weights and running totals are exact reals, so the fallback branch happens
  only when `r` is above the total, never through rounding.
- `await`, `commit` and `refresh`: each operation is one sequential step over the tables. The
  race in which concurrent requests read a stale load and push an operator over `max_load` is
  not modelled.
- Transactions: the lead is committed before the contact is stored, so a lead can be left
  without its contact if storing the contact fails. That failure is not modelled.
- Exceptions from `scalar_one_or_none` on duplicate rows are not modelled: `LeadTable`'s
  invariant rules out a second match.
- Columns the core does not read: names of operators and sources, timestamps, descriptions.
- Contact status edits made elsewhere: contacts may carry any status, and only `"active"` counts.
