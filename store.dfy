/** The activity store: the process-wide table from activity name to
    activity, its backing data file, and the signup, unregister and reload
    operations that change it. Every successful change is written back to
    the file before the operation returns. */
module Store {
  import opened Participants
  import opened Activities

  /** What the operations report; the HTTP status code each one maps to is
      given by `HttpCode`. */
  datatype Status = Ok | NotFound | AlreadySignedUp | NotSignedUp
  {
    function HttpCode(): int
    {
      match this
      case Ok => 200
      case NotFound => 404
      case AlreadySignedUp => 400
      case NotSignedUp => 400
    }
  }

  /** The data file as the loader finds it. A file that exists but cannot
      be read back as a catalogue is `Corrupt`. */
  datatype FileState = Missing | Corrupt | Stored(content: Catalog)

  /** The outcome of a guarded operation: its status and the table after it. */
  datatype Outcome = Outcome(status: Status, store: Catalog)

  /** The outcome of loading: the table in memory and the file afterwards. */
  datatype Loaded = Loaded(activities: Catalog, file: FileState)

  /** Persisting a table replaces the whole file by it; serialisation is
      taken to be exact, so the file then reads back as that table. */
  function Save(m: Catalog): FileState
  {
    Stored(m)
  }

  /** Startup and reload: a readable file is taken as it is; a missing or
      corrupt file is replaced by the default catalogue, which is also what
      is returned. Loading never fails, and afterwards the file holds
      exactly the table in memory. */
  function Load(f: FileState): (r: Loaded)
    ensures r.file == Save(r.activities)
    ensures f.Stored? ==> r.activities == f.content
    ensures !f.Stored? ==> r.activities == DefaultActivities()
  {
    match f
    case Stored(content) => Loaded(content, f)
    case _ =>
      var data := DefaultActivities();
      Loaded(data, Save(data))
  }

  /** `m'` differs from `m` at most in the participant list of `name`: same
      names, every other activity as it was, and the description, schedule
      and capacity of `name` itself as they were. */
  ghost predicate OnlyRosterChanged(m: Catalog, m': Catalog, name: string)
  {
    && m'.Keys == m.Keys
    && (forall other :: other in m && other != name ==> m'[other] == m[other])
    && (name in m ==>
          && m'[name].description == m[name].description
          && m'[name].schedule == m[name].schedule
          && m'[name].maxParticipants == m[name].maxParticipants)
  }

  /** Signing `email` up for `name`: unknown activity, then duplicate
      address, are rejected without any change; otherwise the address is
      added at the end of that roster and occurs there exactly once. The
      capacity is never consulted. */
  function SignupStep(m: Catalog, name: string, email: Email): (r: Outcome)
    ensures r.status == NotFound <==> name !in m
    ensures r.status == AlreadySignedUp <==> name in m && email in m[name].participants
    ensures r.status == Ok || r.status == NotFound || r.status == AlreadySignedUp
    ensures r.status != Ok ==> r.store == m
    ensures OnlyRosterChanged(m, r.store, name)
  {
    if name !in m then Outcome(NotFound, m)
    else
      var activity := m[name];
      if email in activity.participants then Outcome(AlreadySignedUp, m)
      else Outcome(Ok, m[name := activity.(participants := activity.participants + [email])])
  }

  /** Unregistering `email` from `name`: unknown activity, then absent
      address, are rejected without any change; otherwise the first
      occurrence of the address is deleted and every other student keeps
      their place in the original order. */
  function UnregisterStep(m: Catalog, name: string, email: Email): (r: Outcome)
    ensures r.status == NotFound <==> name !in m
    ensures r.status == NotSignedUp <==> name in m && email !in m[name].participants
    ensures r.status == Ok || r.status == NotFound || r.status == NotSignedUp
    ensures r.status != Ok ==> r.store == m
    ensures OnlyRosterChanged(m, r.store, name)
  {
    if name !in m then Outcome(NotFound, m)
    else
      var activity := m[name];
      if email !in activity.participants then Outcome(NotSignedUp, m)
      else Outcome(Ok, m[name := activity.(participants := RemoveFirst(activity.participants, email))])
  }

  /** A successful signup puts the address at the end of the roster, after
      every student already there, and it then occurs there exactly once. */
  lemma SignupAppends(m: Catalog, name: string, email: Email)
    requires SignupStep(m, name, email).status == Ok
    ensures var before, after := m[name].participants, SignupStep(m, name, email).store[name].participants;
      && |after| == |before| + 1
      && after[..|before|] == before
      && after[|before|] == email
      && multiset(after)[email] == 1
  {
  }

  /** A successful unregister deletes the first occurrence of the address:
      the students before it stay where they were, those after it move up
      by one in their original order. */
  lemma UnregisterDeletesFirst(m: Catalog, name: string, email: Email)
    requires UnregisterStep(m, name, email).status == Ok
    ensures var before, after := m[name].participants, UnregisterStep(m, name, email).store[name].participants;
      var i := IndexOf(before, email);
      && |after| == |before| - 1
      && after[..i] == before[..i]
      && after[i..] == before[i + 1..]
  {
  }

  /** A second identical signup is rejected with 400 and changes nothing. */
  lemma SignupTwice(m: Catalog, name: string, email: Email)
    requires SignupStep(m, name, email).status == Ok
    ensures var r := SignupStep(m, name, email);
      SignupStep(r.store, name, email) == Outcome(AlreadySignedUp, r.store)
  {
  }

  /** Signing up a new address and unregistering it again restores the
      table exactly. */
  lemma SignupThenUnregister(m: Catalog, name: string, email: Email)
    requires SignupStep(m, name, email).status == Ok
    ensures UnregisterStep(SignupStep(m, name, email).store, name, email) == Outcome(Ok, m)
  {
    AppendThenRemoveFirst(m[name].participants, email);
    assert UnregisterStep(SignupStep(m, name, email).store, name, email).store == m;
  }

  /** Signup keeps every roster duplicate-free. */
  lemma SignupKeepsDistinct(m: Catalog, name: string, email: Email)
    requires RostersDistinct(m)
    ensures RostersDistinct(SignupStep(m, name, email).store)
  {
  }

  /** Unregister keeps every roster duplicate-free, and a successful one
      leaves no copy of the address in a duplicate-free roster. */
  lemma UnregisterKeepsDistinct(m: Catalog, name: string, email: Email)
    requires RostersDistinct(m)
    ensures RostersDistinct(UnregisterStep(m, name, email).store)
    ensures name in m ==> email !in UnregisterStep(m, name, email).store[name].participants
  {
    var r := UnregisterStep(m, name, email);
    if r.status == Ok {
      RemoveFirstDistinct(m[name].participants, email);
    }
  }

  /** A successful unregister takes away exactly one copy of the address
      and no other student. */
  lemma UnregisterRemovesOneCopy(m: Catalog, name: string, email: Email)
    requires UnregisterStep(m, name, email).status == Ok
    ensures multiset(UnregisterStep(m, name, email).store[name].participants)
      == multiset(m[name].participants) - multiset{email}
  {
    RemoveFirstMultiset(m[name].participants, email);
  }

  /** The capacity plays no part: whatever `maxParticipants` holds, and
      however full the roster is, the signup decides the same way. */
  lemma SignupIgnoresCapacity(m: Catalog, name: string, email: Email, capacity: int)
    requires name in m
    ensures var m' := m[name := m[name].(maxParticipants := capacity)];
      SignupStep(m', name, email).status == SignupStep(m, name, email).status
    ensures email !in m[name].participants && |m[name].participants| >= m[name].maxParticipants ==>
      SignupStep(m, name, email).status == Ok
  {
  }

  /** Loading the file that loading has just written gives the same table
      and leaves the file alone: reloading without an outside edit is a
      no-op. */
  lemma LoadIdempotent(f: FileState)
    ensures Load(Load(f).file) == Load(f)
  {
  }

  /** A saved table is loaded back unchanged. */
  lemma SaveThenLoad(m: Catalog)
    ensures Load(Save(m)).activities == m
  {
  }

  /** The session described for a fresh installation: a new student joins
      "Chess Club" (two participants become three), the same signup is then
      refused with 400, unregistering restores the table, and an unknown
      activity gives 404. It holds for any table whose "Chess Club" roster
      is the default one and that has no "Unknown" activity. */
  lemma ChessClubSession(m0: Catalog)
    requires "Chess Club" in m0 && "Unknown" !in m0
    requires m0["Chess Club"].participants == ["michael@mergington.edu", "daniel@mergington.edu"]
    ensures var s1 := SignupStep(m0, "Chess Club", "new@mergington.edu");
      && s1.status.HttpCode() == 200
      && |s1.store["Chess Club"].participants| == 3
      && SignupStep(s1.store, "Chess Club", "new@mergington.edu").status.HttpCode() == 400
      && UnregisterStep(s1.store, "Chess Club", "new@mergington.edu") == Outcome(Ok, m0)
      && SignupStep(m0, "Unknown", "x@y.edu").status.HttpCode() == 404
  {
    var roster := m0["Chess Club"].participants;
    assert "new@mergington.edu" !in roster by {
      assert "new@mergington.edu"[0] != roster[0][0];
      assert "new@mergington.edu"[0] != roster[1][0];
    }
    SignupThenUnregister(m0, "Chess Club", "new@mergington.edu");
  }

  /** A store started without a data file holds the nine default activities
      and "Chess Club" runs the session above. */
  lemma FreshStoreSession()
    ensures |Load(Missing).activities| == 9
    ensures var m0 := Load(Missing).activities;
      "Chess Club" in m0 && "Unknown" !in m0 &&
      m0["Chess Club"].participants == ["michael@mergington.edu", "daniel@mergington.edu"]
  {
    // Reusing the seed lemmas roughly halves the solver's work here.
    DefaultSize();
    DefaultChessClub();
  }

  /** The running service's store: the table in memory and the data file
      behind it. */
  class ActivityStore {
    var activities: Catalog
    var file: FileState

    /** The file and the table agree. */
    predicate Synced()
      reads this
    {
      file == Save(activities)
    }

    /** Process start: load from whatever the file holds. */
    constructor (found: FileState)
      ensures activities == Load(found).activities && file == Load(found).file
      ensures Synced()
    {
      var loaded := Load(found);
      activities := loaded.activities;
      file := loaded.file;
    }

    /** POST /activities/{name}/signup?email=... */
    method Signup(name: string, email: Email) returns (status: Status)
      modifies this
      ensures status == SignupStep(old(activities), name, email).status
      ensures activities == SignupStep(old(activities), name, email).store
      ensures file == if status == Ok then Save(activities) else old(file)
      ensures old(Synced()) ==> Synced()
    {
      if name !in activities {
        return NotFound;
      }
      var activity := activities[name];
      if email in activity.participants {
        return AlreadySignedUp;
      }
      activities := activities[name := activity.(participants := activity.participants + [email])];
      file := Save(activities);
      status := Ok;
    }

    /** DELETE /activities/{name}/unregister?email=... */
    method Unregister(name: string, email: Email) returns (status: Status)
      modifies this
      ensures status == UnregisterStep(old(activities), name, email).status
      ensures activities == UnregisterStep(old(activities), name, email).store
      ensures file == if status == Ok then Save(activities) else old(file)
      ensures old(Synced()) ==> Synced()
    {
      if name !in activities {
        return NotFound;
      }
      var activity := activities[name];
      if email !in activity.participants {
        return NotSignedUp;
      }
      activities := activities[name := activity.(participants := RemoveFirst(activity.participants, email))];
      file := Save(activities);
      status := Ok;
    }

    /** POST /activities/reload: replace the table by a fresh load and
        report how many activities it holds. */
    method Reload() returns (count: nat)
      modifies this
      ensures activities == Load(old(file)).activities && file == Load(old(file)).file
      ensures count == |activities|
      ensures Synced()
      ensures old(Synced()) ==> activities == old(activities)
    {
      var loaded := Load(file);
      activities := loaded.activities;
      file := loaded.file;
      count := |activities|;
    }
  }
}
