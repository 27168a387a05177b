/**
 The service as a sequential state machine: each request to the directory
 (list, sign up, unregister) is answered against the current roster and may
 replace it. Requests are taken one after another, never interleaved.
 */
module Requests {
  import opened Sequences
  import opened ActivityStore

  datatype Request =
    | ListActivities
    | SignupRequest(name: string, email: string)
    | UnregisterRequest(name: string, email: string)

  /** The listing answers with the roster itself; the other two with an Outcome. */
  datatype Reply = Listing(activities: Roster) | Answer(outcome: Outcome)

  /** An operation's outcome as the reply, with the roster it leaves. */
  function AsAnswer(res: (Outcome, Roster)): (Reply, Roster) {
    (Answer(res.0), res.1)
  }

  /**
   Answer one request. The activity names never change; an unknown activity
   answers NotFound, an email already listed (signup) or not listed
   (unregister) answers Conflict, and both leave the roster as it was; a
   listing neither filters nor changes anything.
   */
  function Step(r: Roster, req: Request): (res: (Reply, Roster))
    ensures res.1.Keys == r.Keys
    ensures req.ListActivities? ==> res.1 == r && res.0 == Listing(r)
    ensures res.0.Answer? && !res.0.outcome.Ok? ==> res.1 == r
    ensures !req.ListActivities? ==> res.0.Answer? && OnlyParticipantsChanged(r, res.1, req.name)
    ensures !req.ListActivities? && req.name !in r ==> res == (Answer(NotFound), r)
    ensures req.SignupRequest? && req.name in r && req.email in r[req.name].participants ==>
      res == (Answer(Conflict), r)
    ensures req.UnregisterRequest? && req.name in r && req.email !in r[req.name].participants ==>
      res == (Answer(Conflict), r)
  {
    match req
    case ListActivities => (Listing(GetActivities(r)), r)
    case SignupRequest(name, email) => AsAnswer(Signup(r, name, email))
    case UnregisterRequest(name, email) => AsAnswer(Unregister(r, name, email))
  }

  /** Every request keeps the roster invariant. */
  lemma StepPreservesValid(r: Roster, req: Request)
    requires Valid(r)
    ensures Valid(Step(r, req).1)
  {
    match req
    case ListActivities =>
    case SignupRequest(name, email) => SignupPreservesValid(r, name, email);
    case UnregisterRequest(name, email) => UnregisterPreservesValid(r, name, email);
  }

  /**
   Answer the requests in order, each against the roster the previous one
   left. One reply per request, and the activity names are those of the
   starting roster.
   */
  function Run(r: Roster, reqs: seq<Request>): (res: (seq<Reply>, Roster))
    ensures |res.0| == |reqs|
    ensures res.1.Keys == r.Keys
    decreases |reqs|
  {
    if reqs == [] then ([], r)
    else
      var (reply, r1) := Step(r, reqs[0]);
      var (replies, r2) := Run(r1, reqs[1..]);
      ([reply] + replies, r2)
  }

  /** Any sequence of requests keeps the roster invariant. */
  lemma {:induction false} RunPreservesValid(r: Roster, reqs: seq<Request>)
    requires Valid(r)
    ensures Valid(Run(r, reqs).1)
    decreases |reqs|
  {
    if reqs != [] {
      StepPreservesValid(r, reqs[0]);
      RunPreservesValid(Step(r, reqs[0]).1, reqs[1..]);
    }
  }

  /** One signup request for `name` per email, in the order given. */
  function Signups(name: string, emails: seq<string>): (reqs: seq<Request>)
    ensures |reqs| == |emails|
    ensures forall k {:trigger reqs[k]} | 0 <= k < |emails| :: reqs[k] == SignupRequest(name, emails[k])
  {
    if emails == [] then [] else [SignupRequest(name, emails[0])] + Signups(name, emails[1..])
  }

  /** None of `emails` is listed in `ps` yet. */
  predicate AllNew(emails: seq<string>, ps: seq<string>) {
    forall e | e in emails :: e !in ps
  }

  /** Reply `k` is the Ok of signing `emails[k]` up for `name`. */
  predicate AllSignedUp(replies: seq<Reply>, name: string, emails: seq<string>) {
    && |replies| == |emails|
    && forall k | 0 <= k < |replies| :: replies[k] == Answer(Ok(SignedUpMessage(emails[k], name)))
  }

  /** Dropping the first email keeps the remaining ones distinct and new. */
  lemma RestStaysNew(ps: seq<string>, emails: seq<string>)
    requires |emails| > 0 && NoDuplicates(emails)
    requires AllNew(emails, ps)
    ensures NoDuplicates(emails[1..])
    ensures AllNew(emails[1..], ps + [emails[0]])
  {
  }

  /** A signup request for a new student: the Ok reply and the email appended. */
  lemma StepSignupNew(r: Roster, name: string, email: string)
    requires name in r && email !in r[name].participants
    ensures Step(r, SignupRequest(name, email)).0 == Answer(Ok(SignedUpMessage(email, name)))
    ensures Step(r, SignupRequest(name, email)).1[name].participants == r[name].participants + [email]
    ensures OnlyParticipantsChanged(r, Step(r, SignupRequest(name, email)).1, name)
  {
  }

  /** An unregister request for a listed student: the Ok reply and the first entry removed. */
  lemma StepUnregisterListed(r: Roster, name: string, email: string)
    requires name in r && email in r[name].participants
    ensures Step(r, UnregisterRequest(name, email)).0 == Answer(Ok(UnregisteredMessage(email, name)))
    ensures Step(r, UnregisterRequest(name, email)).1[name].participants == RemoveFirst(r[name].participants, email)
    ensures OnlyParticipantsChanged(r, Step(r, UnregisterRequest(name, email)).1, name)
  {
  }

  /**
   The round trip as two requests: a signup of a new student followed by
   their unregister both answer Ok and leave the roster as it started.
   */
  lemma RequestRoundTrip(r: Roster, name: string, email: string)
    requires name in r && email !in r[name].participants
    ensures Run(r, [SignupRequest(name, email), UnregisterRequest(name, email)]) ==
      ([Answer(Ok(SignedUpMessage(email, name))), Answer(Ok(UnregisteredMessage(email, name)))], r)
  {
    var reqs := [SignupRequest(name, email), UnregisterRequest(name, email)];
    SignupThenUnregister(r, name, email);
    var (o1, r1) := Signup(r, name, email);
    var (o2, r2) := Unregister(r1, name, email);
    assert o1 == Ok(SignedUpMessage(email, name)) && o2 == Ok(UnregisteredMessage(email, name)) && r2 == r;
    assert Step(r, reqs[0]) == (Answer(o1), r1);
    assert Step(r1, reqs[1]) == (Answer(o2), r2);
    var rest := reqs[1..];
    assert rest != [] && rest[0] == reqs[1] && rest[1..] == [];
    assert Run(r2, rest[1..]) == ([], r2);
    assert Run(r1, rest) == ([Answer(o2)] + [], r2);
    assert reqs != [] && reqs[0] == SignupRequest(name, email);
    var first := Step(r, reqs[0]);
    var tail := Run(first.1, reqs[1..]);
    assert Run(r, reqs) == ([first.0] + tail.0, tail.1);
    assert first == (Answer(o1), r1) && tail == ([Answer(o2)] + [], r2);
    assert [Answer(o1)] + ([Answer(o2)] + []) == [Answer(o1), Answer(o2)];
  }

  /** What `SignupsInOrder` promises for the signups of `emails`, starting from `r`. */
  predicate SignedUpInOrder(r: Roster, name: string, emails: seq<string>)
    requires name in r
  {
    var res := Run(r, Signups(name, emails));
    && AllSignedUp(res.0, name, emails)
    && res.1[name].participants == r[name].participants + emails
    && OnlyParticipantsChanged(r, res.1, name)
  }

  /** The inductive step: the first signup succeeds, and the rest start from its roster. */
  lemma SignedUpInOrderCons(r: Roster, name: string, emails: seq<string>)
    requires name in r && |emails| > 0 && emails[0] !in r[name].participants
    requires SignedUpInOrder(Step(r, SignupRequest(name, emails[0])).1, name, emails[1..])
    ensures SignedUpInOrder(r, name, emails)
  {
  }

  /**
   Distinct new students signing up one after another for the same activity
   all succeed and end up listed after the existing participants, in the
   order they signed up; every other activity is unchanged.
   */
  lemma {:induction false} SignupsInOrder(r: Roster, name: string, emails: seq<string>)
    requires name in r && NoDuplicates(emails)
    requires AllNew(emails, r[name].participants)
    ensures SignedUpInOrder(r, name, emails)
    decreases |emails|
  {
    if emails == [] {
      assert r[name].participants + [] == r[name].participants;
    } else {
      StepSignupNew(r, name, emails[0]);
      RestStaysNew(r[name].participants, emails);
      SignupsInOrder(Step(r, SignupRequest(name, emails[0])).1, name, emails[1..]);
      SignedUpInOrderCons(r, name, emails);
    }
  }
}
