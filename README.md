# Mergington High School activity roster — a Dafny model

The service keeps one process-wide table from activity name to activity
record (description, schedule, capacity and an ordered list of participant
e-mail addresses), backed by a JSON data file. Students sign up for an
activity and unregister from it through two guarded operations that change
the table in place and write it back to the file. An administrative reload
replaces the table with a fresh load. A missing or corrupt file is replaced
by a fixed default catalogue of nine activities.

The model has three modules:

- `Participants` (`participants.dfy`) models one participant list and the
  three list operations the handlers use. Membership is Dafny's `in`.
  Appending is `+ [email]`. Python's `list.remove` is `RemoveFirst`, a scan
  that drops the first equal element. Its contract describes it by
  `IndexOf`, the first index of the address.
- `Activities` (`activities.dfy`) holds the activity record, the `Catalog`
  table type and the default seed. The seed's longer descriptions and
  schedules are written as concatenations of short literals. Each one
  spells the same text as in the source.
- `Store` (`store.dfy`) holds the data file and the operations on the table.
  The file is a `FileState`: missing, corrupt, or holding a catalogue.
  `Load` and `Save` stand for loading and saving. The pure functions
  `SignupStep` and `UnregisterStep` specify the guarded operations, and the
  lemmas relating several steps are stated about them. The class
  `ActivityStore` has the table and the file as fields. Its methods
  `Signup`, `Unregister` and `Reload` update those fields in place, as the
  handlers do. Each method's postcondition ties the new state to the
  matching specification function.

Status codes are the `Status` datatype. `HttpCode` maps `NotFound` to 404,
`AlreadySignedUp` and `NotSignedUp` to 400, and `Ok` to 200.

## Model

| member | source | states |
|---|---|---|
| `Participants.IndexOf` | src/app.py:173 | the index it returns holds the address, and no earlier index does (the first occurrence) |
| `Participants.RemoveFirst` | src/app.py:173 | `list.remove` shortens the list by one. Elements before the first occurrence stay in place. Elements after it move up by one, in their original order |
| `Participants.RemoveFirstMultiset` | src/app.py:173 | removal takes away exactly one copy of the address and no other element |
| `Participants.RemoveFirstDistinct` | src/app.py:166-173 | removing from a duplicate-free list keeps it duplicate-free and leaves no copy of the address |
| `Participants.AppendThenRemoveFirst` | src/app.py:150-173 | appending an absent address and then removing it gives back the original list |
| `Participants.AppendDistinct` | src/app.py:143-150 | appending an absent address keeps the list duplicate-free, and the address then occurs exactly once |
| `Activities.DefaultKeys` | src/app.py:30-86 | the default catalogue is keyed by exactly the nine listed names |
| `Activities.DefaultNamesCount` | src/app.py:30-86 | the nine default names are pairwise different |
| `Activities.DefaultSize` | src/app.py:30-86 | the default catalogue has 9 activities, "Chess Club" among them |
| `Activities.DefaultChessClub` | src/app.py:32-37 | "Chess Club" starts with exactly Michael and Daniel, and there is no "Unknown" activity |
| `Activities.DefaultRosters` | src/app.py:30-86 | every default roster has exactly two different students, within the activity's capacity |
| `Store.Load` | src/app.py:89-101 | a readable file is taken as it is. A missing or corrupt file gives the defaults. Either way the file afterwards holds exactly the loaded table |
| `Store.SignupStep` | src/app.py:132-152 | 404 exactly when the activity is unknown. 400 exactly when the address is already listed. Rejections change nothing. Success changes only that activity's roster: the names and every other activity stay the same, and so do its description, schedule and capacity |
| `Store.SignupAppends` | src/app.py:150 | on success the roster grows by one. The old students stay in front in their order, the address is last, and it occurs exactly once |
| `Store.UnregisterStep` | src/app.py:155-175 | 404 exactly when the activity is unknown. 400 exactly when the address is not listed. Rejections change nothing. Success changes only that activity's roster: the names and every other activity stay the same, and so do its description, schedule and capacity |
| `Store.UnregisterDeletesFirst` | src/app.py:173 | on success the roster shrinks by one. Students before the first occurrence of the address stay in place, and those after it move up by one in their order |
| `Store.SignupTwice` | src/app.py:143-150 | after a successful signup, the same signup is rejected with 400 and changes nothing |
| `Store.SignupThenUnregister` | src/app.py:132-175 | signing up a new address and then unregistering it gives back the original table |
| `Store.SignupKeepsDistinct` | src/app.py:143-150 | signup keeps every roster free of duplicates |
| `Store.UnregisterKeepsDistinct` | src/app.py:166-173 | unregister keeps every roster free of duplicates. Afterwards the address is no longer in that activity's roster |
| `Store.UnregisterRemovesOneCopy` | src/app.py:173 | a successful unregister removes exactly one copy of the address and no other student |
| `Store.SignupIgnoresCapacity` | src/app.py:140-150 | changing `max_participants` never changes the signup's decision, and a new address is accepted even when the roster is at or over capacity |
| `Store.LoadIdempotent` | src/app.py:178-183 | loading the file that a load has just left gives the same table and file, so a second reload changes nothing |
| `Store.SaveThenLoad` | src/app.py:94-110 | a saved table loads back unchanged |
| `Store.ChessClubSession` | src/app.py:132-175 | from the default "Chess Club" roster: a new signup gives 200 and three participants, the same signup again gives 400, unregistering restores the table, and an unknown activity gives 404 |
| `Store.FreshStoreSession` | src/app.py:89-93 | a store started without a data file has 9 activities, with the default "Chess Club" roster and no "Unknown" activity |
| `Store.ActivityStore.constructor` | src/app.py:119 | at process start the table and the file are those that `Load` gives for the file as found, so the two agree |
| `Store.ActivityStore.Signup` | src/app.py:132-152 | the status and the new table are those of `SignupStep`. Only a successful signup writes the file, and then the file holds the new table |
| `Store.ActivityStore.Unregister` | src/app.py:155-175 | the status and the new table are those of `UnregisterStep`. Only a successful unregister writes the file, and then the file holds the new table |
| `Store.ActivityStore.Reload` | src/app.py:178-183 | the table and file become those that `Load` gives for the file, and the count returned is the number of activity names. When the file already held the table, the table is unchanged |

## Left out

- FastAPI routing, the static-file mount and the redirect from `/` are left out. They are framework plumbing. Errors are the abstract `Status`, and the response message strings are not modelled.
- The list handler (`GET /activities`) only returns the table as it is. It is not modelled.
- JSON parsing and serialisation are not modelled. `Save` is defined as the file holding exactly the table, so `SaveThenLoad` holds by construction and says nothing about the real encoder. A file that parses as JSON but does not have the activity schema is not modelled either: `Stored` always holds a well-typed catalogue.
- The temporary-file-and-rename write and its clean-up are filesystem I/O and are not modelled. `Save` always succeeds. In the source, the roster is changed in memory before the save. A save that raised would therefore leave memory changed and the file as before. The model does not capture that case.
- How the file comes to be missing or corrupt is not modelled, and neither are directory creation and path computation. The constructor takes the file as found at process start. Edits to the file by anything other than the store are not modelled, but `Reload` is specified for any file state.
- Concurrent requests are not modelled. In particular, the unsynchronised check-then-append race that could let two identical signups both succeed is out of scope. Each method runs as one atomic step.
