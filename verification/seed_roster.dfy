/**
 The roster the service starts with on every process start: nine activities,
 each seeded with one or two students. Only the parts the operations look at
 are kept here: the name, the capacity and the participant list.
 */
module SeedRoster {
  import opened Sequences
  import opened ActivityStore

  /**
   A seeded activity without its description and schedule text, which are
   not part of this model; `IsSeeded` matches these against a roster's records.
   */
  datatype SeedRecord = SeedRecord(name: string, maxParticipants: int, participants: seq<string>)

  /** The seeded activities in declaration order. */
  function SeedRecords(): seq<SeedRecord> {
    [
      SeedRecord("Soccer Club", 22, ["alex@mergington.edu"]),
      SeedRecord("Tennis Team", 16, ["james@mergington.edu"]),
      SeedRecord("Art Club", 15, ["isabella@mergington.edu"]),
      SeedRecord("Drama Club", 20, ["lucas@mergington.edu", "grace@mergington.edu"]),
      SeedRecord("Robotics Club", 18, ["ryan@mergington.edu"]),
      SeedRecord("Math Team", 12, ["zoe@mergington.edu"]),
      SeedRecord("Chess Club", 12, ["michael@mergington.edu", "daniel@mergington.edu"]),
      SeedRecord("Programming Class", 20, ["emma@mergington.edu", "sophia@mergington.edu"]),
      SeedRecord("Gym Class", 30, ["john@mergington.edu", "olivia@mergington.edu"])
    ]
  }

  /**
   A roster that holds exactly the seeded activities, each with its seeded
   capacity and participant list, whatever its descriptions and schedules.
   */
  predicate IsSeeded(r: Roster) {
    && (forall name | name in r :: exists k | 0 <= k < |SeedRecords()| :: SeedRecords()[k].name == name)
    && (forall k | 0 <= k < |SeedRecords()| ::
          && SeedRecords()[k].name in r
          && r[SeedRecords()[k].name].maxParticipants == SeedRecords()[k].maxParticipants
          && r[SeedRecords()[k].name].participants == SeedRecords()[k].participants)
  }

  /** Every seeded participant list is duplicate-free, within its positive capacity. */
  lemma SeedRecordsValid()
    ensures forall k | 0 <= k < |SeedRecords()| ::
      && NoDuplicates(SeedRecords()[k].participants)
      && 0 < |SeedRecords()[k].participants| <= SeedRecords()[k].maxParticipants
  {
  }

  /** The roster the service starts with satisfies the roster invariant. */
  lemma SeededRosterValid(r: Roster)
    requires IsSeeded(r)
    ensures Valid(r)
  {
  }

  /** The seeded Soccer Club lists one student, alex. */
  lemma SeedSoccerClub(r: Roster)
    requires IsSeeded(r)
    ensures "Soccer Club" in r && r["Soccer Club"].participants == ["alex@mergington.edu"]
  {
    assert SeedRecords()[0].name == "Soccer Club";
  }
}
