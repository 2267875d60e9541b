/** The activity record and the fixed default catalogue the service seeds
    itself with when no usable data file exists. */
module Activities {
  import opened Participants

  /** One extracurricular activity. `maxParticipants` is stored but no
      operation ever compares the roster against it. */
  datatype Activity = Activity(
    description: string,
    schedule: string,
    maxParticipants: int,
    participants: seq<Email>)

  /** The store's table: activity name (case-sensitive) to activity. */
  type Catalog = map<string, Activity>

  /** Every roster in the catalogue is free of duplicate addresses. */
  ghost predicate RostersDistinct(m: Catalog)
  {
    forall name :: name in m ==> Distinct(m[name].participants)
  }

  /** The nine activities of a fresh installation, each with its
      description, weekly schedule, capacity and two enrolled students. */
  function DefaultActivities(): Catalog
  {
    // The longer texts are concatenations of short literals that spell the
    // same strings; the solver handles short literals far more cheaply.
    map[
      "Chess Club" := Activity(
        "Learn strategies " + "and compete " + "in chess " + "tournaments",
        "Fridays, " + "3:30 PM - 5:00 PM", 12,
        ["michael@mergington.edu", "daniel@mergington.edu"]),
      "Programming Class" := Activity(
        "Learn programming " + "fundamentals " + "and build " + "software projects",
        "Tuesdays and " + "Thursdays, " + "3:30 PM - 4:30 PM", 20,
        ["emma@mergington.edu", "sophia@mergington.edu"]),
      "Gym Class" := Activity(
        "Physical " + "education and " + "sports activities",
        "Mondays, " + "Wednesdays, " + "Fridays, " + "2:00 PM - 3:00 PM", 30,
        ["john@mergington.edu", "olivia@mergington.edu"]),
      "Soccer Team" := Activity(
        "Join the school " + "soccer team " + "and compete " + "in matches",
        "Tuesdays and " + "Thursdays, " + "4:00 PM - 5:30 PM", 22,
        ["liam@mergington.edu", "noah@mergington.edu"]),
      "Basketball Team" := Activity(
        "Practice and " + "play basketball " + "with the " + "school team",
        "Wednesdays and " + "Fridays, " + "3:30 PM - 5:00 PM", 15,
        ["ava@mergington.edu", "mia@mergington.edu"]),
      "Art Club" := Activity(
        "Explore your " + "creativity " + "through painting " + "and drawing",
        "Thursdays, " + "3:30 PM - 5:00 PM", 15,
        ["amelia@mergington.edu", "harper@mergington.edu"]),
      "Drama Club" := Activity(
        "Act, direct, " + "and produce " + "plays and " + "performances",
        "Mondays and " + "Wednesdays, " + "4:00 PM - 5:30 PM", 20,
        ["ella@mergington.edu", "scarlett@mergington.edu"]),
      "Math Club" := Activity(
        "Solve " + "challenging " + "problems and " + "participate in " + "math competitions",
        "Tuesdays, " + "3:30 PM - 4:30 PM", 10,
        ["james@mergington.edu", "benjamin@mergington.edu"]),
      "Debate Team" := Activity(
        "Develop public " + "speaking and " + "argumentation " + "skills",
        "Fridays, " + "4:00 PM - 5:30 PM", 12,
        ["charlotte@mergington.edu", "henry@mergington.edu"])
    ]
  }

  /** The names of the default activities. */
  const DefaultNames: set<string> := {"Chess Club", "Programming Class", "Gym Class",
    "Soccer Team", "Basketball Team", "Art Club", "Drama Club", "Math Club", "Debate Team"}

  /** The default catalogue is keyed by exactly those names. */
  lemma DefaultKeys()
    ensures DefaultActivities().Keys == DefaultNames
  {
  }

  /** The nine names are pairwise different. */
  lemma DefaultNamesCount()
    ensures |DefaultNames| == 9
  {
  }

  /** The seed holds nine distinct activity names, "Chess Club" among them. */
  lemma DefaultSize()
    ensures |DefaultActivities()| == 9
    ensures "Chess Club" in DefaultActivities()
  {
    // Going through the key set is several times cheaper for the solver
    // than counting the map display directly.
    DefaultKeys();
    DefaultNamesCount();
    assert |DefaultActivities()| == |DefaultActivities().Keys|;
  }

  /** "Chess Club" starts with Michael and Daniel; there is no activity
      called "Unknown". */
  lemma DefaultChessClub()
    ensures "Chess Club" in DefaultActivities() && "Unknown" !in DefaultActivities()
    ensures DefaultActivities()["Chess Club"].participants
      == ["michael@mergington.edu", "daniel@mergington.edu"]
  {
  }

  /** Every default roster holds exactly two different students, within
      the activity's capacity. */
  lemma DefaultRosters()
    ensures forall name :: name in DefaultActivities() ==>
      var a := DefaultActivities()[name];
      |a.participants| == 2 && a.participants[0] != a.participants[1] &&
      |a.participants| <= a.maxParticipants
    ensures RostersDistinct(DefaultActivities())
  {
    // Proving the three facts one after another, with the first letters
    // of the two addresses compared on their own, costs the solver a
    // fraction of what the bare ensures clauses do.
    var m := DefaultActivities();
    forall name | name in m
      ensures |m[name].participants| == 2 && 2 <= m[name].maxParticipants
    {
    }
    forall name | name in m
      ensures m[name].participants[0][0] != m[name].participants[1][0]
    {
    }
    forall name | name in m
      ensures Distinct(m[name].participants)
    {
    }
  }
}
