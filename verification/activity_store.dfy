/**
 The in-memory activity directory of Mergington High School: a roster mapping
 each activity name to its record, and the two operations that change it,
 signing a student up and unregistering them, both identified by email.
 A failed operation reports NotFound (unknown activity) or Conflict (already
 signed up / not signed up) and leaves the roster exactly as it was.
 */
module ActivityStore {
  import opened Sequences

  /** One activity's record; the name is its key in the roster. */
  datatype Activity = Activity(
    description: string,
    schedule: string,
    maxParticipants: int,    // stored and listed, never enforced
    participants: seq<string>  // emails in sign-up order
  )

  type Roster = map<string, Activity>

  /** What a signup or unregister request answers. */
  datatype Outcome = Ok(message: string) | NotFound | Conflict

  function SignedUpMessage(email: string, name: string): string {
    "Signed up " + email + " for " + name
  }

  function UnregisteredMessage(email: string, name: string): string {
    "Unregistered " + email + " from " + name
  }

  /** The roster invariant: no email is listed twice within one activity. */
  predicate Valid(r: Roster) {
    forall name | name in r :: NoDuplicates(r[name].participants)
  }

  /**
   `r'` differs from `r` at most in the participant list of `name`: the same
   activity names, every other record untouched, and the description,
   schedule and capacity of `name` itself untouched.
   */
  predicate OnlyParticipantsChanged(r: Roster, r': Roster, name: string) {
    && r'.Keys == r.Keys
    && (forall other | other in r && other != name :: r'[other] == r[other])
    && (name in r ==>
          && r'[name].description == r[name].description
          && r'[name].schedule == r[name].schedule
          && r'[name].maxParticipants == r[name].maxParticipants)
  }

  /** The record of `name` with its participant list replaced. */
  function WithParticipants(r: Roster, name: string, ps: seq<string>): Roster
    requires name in r
  {
    r[name := r[name].(participants := ps)]
  }

  /** Reading the directory hands back the whole roster, unfiltered. */
  function GetActivities(r: Roster): Roster {
    r
  }

  /**
   Sign `email` up for `name`: NotFound when there is no such activity,
   Conflict when the email is already listed, otherwise the email is added
   at the end of the list. The capacity is not consulted.
   */
  function Signup(r: Roster, name: string, email: string): (res: (Outcome, Roster))
    ensures OnlyParticipantsChanged(r, res.1, name)
    ensures name !in r ==> res == (NotFound, r)
    ensures name in r && email in r[name].participants ==> res == (Conflict, r)
    ensures res.0.Ok? <==> name in r && email !in r[name].participants
    ensures res.0.Ok? ==>
      var before := r[name].participants;
      var after := res.1[name].participants;
      && res.0.message == SignedUpMessage(email, name)
      && |after| == |before| + 1
      && after[..|before|] == before
      && after[|before|] == email
  {
    if name !in r then (NotFound, r)
    else if email in r[name].participants then (Conflict, r)
    else (Ok(SignedUpMessage(email, name)),
          WithParticipants(r, name, r[name].participants + [email]))
  }

  /**
   Unregister `email` from `name`: NotFound when there is no such activity,
   Conflict when the email is not listed, otherwise the first entry equal to
   the email is taken out and the rest keep their order.
   */
  function Unregister(r: Roster, name: string, email: string): (res: (Outcome, Roster))
    ensures OnlyParticipantsChanged(r, res.1, name)
    ensures name !in r ==> res == (NotFound, r)
    ensures name in r && email !in r[name].participants ==> res == (Conflict, r)
    ensures res.0.Ok? <==> name in r && email in r[name].participants
    ensures res.0.Ok? ==>
      var before := r[name].participants;
      var after := res.1[name].participants;
      var i := FirstIndex(before, email);
      && res.0.message == UnregisteredMessage(email, name)
      && |after| == |before| - 1
      && after == before[..i] + before[i + 1..]
  {
    if name !in r then (NotFound, r)
    else if email !in r[name].participants then (Conflict, r)
    else (Ok(UnregisteredMessage(email, name)),
          WithParticipants(r, name, RemoveFirst(r[name].participants, email)))
  }

  /** Signup keeps every participant list duplicate-free. */
  lemma SignupPreservesValid(r: Roster, name: string, email: string)
    requires Valid(r)
    ensures Valid(Signup(r, name, email).1)
  {
  }

  /** Unregister keeps every participant list duplicate-free. */
  lemma UnregisterPreservesValid(r: Roster, name: string, email: string)
    requires Valid(r)
    ensures Valid(Unregister(r, name, email).1)
  {
  }

  /**
   Signing an absent email up and then unregistering it succeeds twice and
   gives back the original roster, participant order included.
   */
  lemma SignupThenUnregister(r: Roster, name: string, email: string)
    requires name in r && email !in r[name].participants
    ensures Signup(r, name, email).0.Ok?
    ensures Unregister(Signup(r, name, email).1, name, email).0.Ok?
    ensures Unregister(Signup(r, name, email).1, name, email).1 == r
  {
    var ps := r[name].participants;
    RemoveFirstOfAppend(ps, email);
    var r1 := WithParticipants(r, name, ps + [email]);
    assert Signup(r, name, email) == (Ok(SignedUpMessage(email, name)), r1);
    assert r1[name].participants == ps + [email];
    assert Unregister(r1, name, email).1 == WithParticipants(r1, name, ps);
    assert r1[name].(participants := ps) == r[name];
    assert WithParticipants(r1, name, ps) == r;
  }

  /**
   The stored capacity is never consulted: a new student is signed up even
   when the activity is already full, and the list then exceeds the capacity.
   */
  lemma SignupIgnoresCapacity(r: Roster, name: string, email: string)
    requires name in r && email !in r[name].participants
    requires |r[name].participants| >= r[name].maxParticipants
    ensures Signup(r, name, email).0.Ok?
    ensures |Signup(r, name, email).1[name].participants| > Signup(r, name, email).1[name].maxParticipants
  {
  }

  /** A second signup of the same email for the same activity is a Conflict. */
  lemma SignupTwiceConflicts(r: Roster, name: string, email: string)
    requires name in r
    ensures Signup(Signup(r, name, email).1, name, email) == (Conflict, Signup(r, name, email).1)
  {
  }

  /**
   On a valid roster a successful unregister leaves the email out of the
   list, and every other student is listed afterwards exactly when they were
   listed before.
   */
  lemma UnregisterRemovesOnlyThatEmail(r: Roster, name: string, email: string, other: string)
    requires Valid(r) && name in r && email in r[name].participants
    requires other != email
    ensures email !in Unregister(r, name, email).1[name].participants
    ensures other in Unregister(r, name, email).1[name].participants <==> other in r[name].participants
  {
  }

  /**
   The walk-through of an activity listing only `first` (as the seeded Soccer
   Club lists only alex): `second` signs up after `first`, a repeated signup
   conflicts, and unregistering `first` leaves only `second`.
   */
  lemma OneParticipantScenario(r: Roster, name: string, first: string, second: string)
    requires name in r && r[name].participants == [first] && first != second
    ensures
      var (o1, r1) := Signup(r, name, second);
      var (o2, r2) := Signup(r1, name, second);
      var (o3, r3) := Unregister(r2, name, first);
      && o1 == Ok(SignedUpMessage(second, name))
      && r1[name].participants == [first, second]
      && o2 == Conflict && r2 == r1
      && o3 == Ok(UnregisteredMessage(first, name))
      && r3[name].participants == [second]
  {
  }
}
