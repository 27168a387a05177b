# Mergington High School activity directory — a Dafny model

This project models the backend of a small school web service. The service
lists extracurricular activities and lets students sign up for one, or
unregister from one, by email. Everything lives in one in-memory roster. The
roster maps an activity name to a record, and the record holds:

- a description;
- a schedule;
- a `max_participants` capacity, which is stored but never enforced;
- the ordered list of participant emails.

The model has four modules:

- `Sequences` (`sequences.dfy`): the three Python list operations the service
  uses. Membership is Dafny's `in`, and `list.append(x)` is `+ [x]`.
  `list.remove` is `RemoveFirst`: it deletes the first entry equal to the
  email, not every copy. `ListRemove` is the same scan written as a loop, and
  it returns `None` where Python raises ValueError.
  This module also defines `NoDuplicates`.
- `ActivityStore` (`activity_store.dfy`): the `Activity` record, the `Roster`
  map and the `Outcome` of a request. `Outcome` is `Ok(message)`, `NotFound`
  (HTTP 404 in the service) or `Conflict` (HTTP 400). This module holds the
  pure functions `Signup` and `Unregister`, which return the outcome together
  with the new roster. It also holds the roster invariant `Valid` (no email
  is listed twice within one activity) and the frame predicate
  `OnlyParticipantsChanged`.
- `Requests` (`requests.dfy`): the service as a sequential state machine.
  `Step` answers a list, signup or unregister request. `Run` answers a sequence
  of requests in order.
- `SeedRoster` (`seed_roster.dfy`): the nine seeded activities, with their
  names, capacities and participant lists.

## Model

| member | source | states |
|---|---|---|
| `Sequences.FirstIndex` | src/app.py:134 | the position `list.remove` deletes: it holds the email, and no earlier position does |
| `Sequences.RemoveFirst` | src/app.py:134 | `list.remove` shortens the list by exactly one: what remains is the entries before the first match followed by those after it, in their original order |
| `Sequences.ListRemove` | src/app.py:134 | the linear scan of `list.remove` gives `None` (ValueError) exactly when the email is absent; otherwise it gives the same list as `RemoveFirst` |
| `Sequences.RemoveFirstMultiset` | src/app.py:134 | removal takes exactly one copy of the email out of the list's multiset and leaves every other entry |
| `Sequences.RemoveFirstKeepsOthers` | src/app.py:134 | every value other than the removed email is in the list afterwards exactly when it was before |
| `Sequences.RemoveFirstKeepsLaterCopies` | src/app.py:134 | only the first copy is removed, so a later duplicate survives: `list.remove` is not a filter |
| `Sequences.AppendPreservesNoDuplicates` | src/app.py:109-115 | appending an email that is not yet listed keeps a duplicate-free list duplicate-free |
| `Sequences.RemoveFirstPreservesNoDuplicates` | src/app.py:130-134 | on a duplicate-free list, removal keeps it duplicate-free and leaves no copy of the email |
| `Sequences.RemoveFirstOfAppend` | src/app.py:113-135 | appending an absent email and then removing it gives back the original list |
| `ActivityStore.Signup` | src/app.py:98-116 | an unknown activity gives NotFound with the roster unchanged. An email already listed gives Conflict with the roster unchanged. Signup is Ok exactly when the activity exists and the email is absent. On Ok, the message is "Signed up E for A", the old list is kept as a prefix, the email is added at the end and the length grows by one. Only that activity's participants change: the keys, the other records and its description, schedule and capacity stay the same |
| `ActivityStore.Unregister` | src/app.py:119-135 | an unknown activity gives NotFound with the roster unchanged. An email that is not listed gives Conflict with the roster unchanged. Unregister is Ok exactly when the activity exists and the email is listed. On Ok, the message is "Unregistered E from A", the entry at the email's first index is spliced out and the length drops by one. It has the same frame as signup |
| `ActivityStore.SignupPreservesValid` | src/app.py:108-115 | signup keeps every participant list duplicate-free |
| `ActivityStore.UnregisterPreservesValid` | src/app.py:129-134 | unregister keeps every participant list duplicate-free |
| `ActivityStore.SignupThenUnregister` | src/app.py:113-135 | for an existing activity and an absent email, signup then unregister are both Ok and restore the original roster, participant order included |
| `ActivityStore.SignupIgnoresCapacity` | src/app.py:108-116 | capacity is never checked: a new email is signed up even when the activity is full, and the list then exceeds `max_participants` |
| `ActivityStore.SignupTwiceConflicts` | src/app.py:108-110 | repeating a signup for the same activity and email gives Conflict and changes nothing |
| `ActivityStore.UnregisterRemovesOnlyThatEmail` | src/app.py:129-134 | on a valid roster a successful unregister leaves the email absent, and any other email is listed afterwards exactly when it was listed before |
| `ActivityStore.OneParticipantScenario` | src/app.py:98-135 | the walk-through on a one-student activity: a new student is appended after the existing one, a repeated signup conflicts, and unregistering the first student leaves only the new one |
| `Requests.Step` | src/app.py:93-135 | one request never changes the activity names. A signup or unregister request for an unknown activity answers NotFound, a signup for an email already listed or an unregister for an email not listed answers Conflict, and all of these leave the roster unchanged. Any signup or unregister request changes at most that activity's participants. A listing returns the whole roster unfiltered and leaves it unchanged |
| `Requests.StepSignupNew` | src/app.py:98-116 | a signup request for a new email is answered by `Signup`: Ok with "Signed up E for A", the email appended to the list, and only that activity's participants changed |
| `Requests.StepUnregisterListed` | src/app.py:119-135 | an unregister request for a listed email is answered by `Unregister`: Ok with "Unregistered E from A", and the first entry equal to the email is removed |
| `Requests.RequestRoundTrip` | src/app.py:98-135 | a signup request for a new email followed by its unregister request both answer Ok, and the roster ends exactly as it started |
| `Requests.StepPreservesValid` | src/app.py:93-135 | every request keeps the roster invariant |
| `Requests.Run` | src/app.py:93-135 | a sequence of requests gives one reply per request and keeps the starting activity names |
| `Requests.RunPreservesValid` | src/app.py:93-135 | any sequence of requests keeps the roster invariant |
| `Requests.SignupsInOrder` | src/app.py:113-116 | distinct new students who sign up one after another all get Ok. They end up after the existing participants in the order they signed up, and only that activity's list changes |
| `SeedRoster.SeedRecordsValid` | src/app.py:23-85 | `SeedRecords` lists the nine seeded activities with their capacities and participants (without the description and schedule text); every seeded participant list is non-empty, duplicate-free and within its positive capacity |
| `SeedRoster.SeededRosterValid` | src/app.py:23-85 | a roster holding exactly the seeded activities, capacities and lists (`IsSeeded`) satisfies the roster invariant |
| `SeedRoster.SeedSoccerClub` | src/app.py:24-30 | the seeded Soccer Club lists only alex@mergington.edu |

## Left out

- HTTP routing, query-parameter parsing, JSON serialisation, the 404/400 status codes and their detail strings are left out. They are framework plumbing, and the `Outcome` variants stand for the two errors.
- The static-files mount and the redirect of `/` to the front-end page are left out because they hold no logic.
- The seeded descriptions and schedules are left out, and so is the `name` field that only some seeded records carry. `SeedRoster` keeps each seeded activity's name, capacity and participants. The `Activity` record has no `name` field because the roster key already names the activity.
- `GetActivities` has no contract of its own. It is the identity on the roster, and `Requests.Step` states what a listing returns.
- The race between concurrent requests on the same activity is left out: between the membership check and the append or remove, another request can change the list. The model takes requests one at a time.
- `Sequences.ListRemove` is a loop form of `RemoveFirst`, and no operation uses it. In the service its ValueError cannot occur, because src/app.py:130 checks membership before src/app.py:134 removes.
- The order of activities in a listing is not modelled. The source's roster is a Python dict, which lists activities in insertion order, but the model's roster is a Dafny `map`, which has no key order.
