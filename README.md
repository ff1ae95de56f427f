# Activity roster

A model of the activity-management logic of a school activities app. The
roster maps each activity name to an activity record: a description, a
schedule, a `max_participants` value and an ordered list of participant
e-mail addresses. Two operations change the roster in place:

- signing a student up for an activity: it fails if the activity does not
  exist or the student is already listed, and otherwise appends the e-mail
  to the end of the activity's list;
- unregistering a student from an activity: it fails if the activity does
  not exist or the student is not listed, and otherwise removes the first
  occurrence of the e-mail from the list.

Files:

- `participants.dfy` (module `Participants`): a participant list as
  `seq<string>`, the no-duplicates property, and `RemoveFirst`, which is
  Python's `list.remove`, with its lemmas.
- `activities.dfy` (module `Activities`): the `Activity` record, the error
  kinds, the two operations as transitions on roster values (`SignUp`,
  `Unregister`), the lemmas about them, and the class `ActivityRoster`. Its
  field `activities` holds the roster. Its methods `SignupParticipant` and
  `UnregisterParticipant` run the same checks and update the field in place,
  and their postconditions tie the new state to the transitions.

Raised exceptions become a `Result` value. `Failure(ActivityNotFound)` and
`Failure(ParticipantNotFound)` are the module's two exception classes.
`Failure(AlreadySignedUp)` is the `ValueError` raised on a duplicate
signup. `Success` stands for a normal return. On every failure the roster is
left unchanged, because the Python code raises before it mutates anything.

## Model

| member | source | states |
|---|---|---|
| `Participants.FirstIndex` | src/activities.py:71 | the index it returns holds the e-mail, and no earlier position does: it is the first occurrence `list.remove` deletes |
| `Participants.RemoveFirst` | src/activities.py:71 | `list.remove` on a list that contains the e-mail: the result is exactly one element shorter |
| `Participants.RemoveFirstMultiset` | src/activities.py:71 | removing takes away one copy of the e-mail and leaves every other element's count unchanged |
| `Participants.RemoveFirstAt` | src/activities.py:71 | the result is the list with the element at the first occurrence cut out, with the elements before and after it kept in order |
| `Participants.RemoveFirstOfAppended` | src/activities.py:43-71 | removing an e-mail that was just appended (and was not listed before) gives back the original list |
| `Participants.AppendKeepsNoDuplicates` | src/activities.py:39-43 | appending an e-mail that is not listed keeps a duplicate-free list duplicate-free |
| `Participants.RemoveFirstKeepsNoDuplicates` | src/activities.py:66-71 | on a duplicate-free list, after removal the e-mail is no longer listed and the list stays duplicate-free |
| `Activities.SignUp` | src/activities.py:19-43 | fails exactly when the activity is missing or the e-mail is already listed; ActivityNotFound exactly when the name is not in the roster; AlreadySignedUp exactly when it is there and the e-mail is listed; on success the e-mail is appended at the end of that list and only that list changes: same activity names, other activities untouched, description, schedule and max_participants kept |
| `Activities.Unregister` | src/activities.py:46-71 | fails exactly when the activity is missing or the e-mail is not listed; ActivityNotFound exactly when the name is missing; ParticipantNotFound exactly when the activity exists but the e-mail is not listed; on success the list is one shorter and has lost one copy of the e-mail, and nothing else in the roster changes |
| `Activities.UnregisterRemovesFirstOccurrence` | src/activities.py:71 | a successful unregister cuts out the first occurrence of the e-mail and keeps the other participants in order |
| `Activities.UnregisterRemovesEmail` | src/activities.py:66-71 | on a duplicate-free roster, after a successful unregister the e-mail is no longer listed for that activity |
| `Activities.SignUpPreservesWellFormed` | src/activities.py:38-43 | signup keeps every participant list of the roster duplicate-free |
| `Activities.UnregisterPreservesWellFormed` | src/activities.py:65-71 | unregister keeps every participant list of the roster duplicate-free |
| `Activities.SignUpThenUnregister` | src/activities.py:19-71 | a successful signup followed by an unregister of the same e-mail from the same activity succeeds and restores the original roster exactly |
| `Activities.UnregisterThenSignUp` | tests/test_activities.py:159-174 | on a duplicate-free roster, unregistering and then signing the same e-mail up again succeeds; the list becomes the other participants in their order with the e-mail at the end, so it has the same participants and the same length as before |
| `Activities.SignUpTwiceFails` | src/activities.py:38-40 | signing the same e-mail up a second time fails with AlreadySignedUp |
| `Activities.UnregisterTwiceFails` | tests/test_activities.py:120-124 | on a duplicate-free roster, unregistering the same e-mail a second time fails with ParticipantNotFound |
| `Activities.SignUpOtherActivities` | tests/test_activities.py:67-73 | one e-mail can sign up for two different activities: both signups succeed in either order, the two orders give the same roster, and the e-mail ends up listed in both |
| `Activities.ActivityRoster.constructor` | src/activities.py:19 | the roster object holds the roster the caller built |
| `Activities.ActivityRoster.SignupParticipant` | src/activities.py:19-43 | in-place signup: each error kind exactly under its condition, the roster unchanged on failure, the new roster equal to `SignUp` of the old one on success, and a duplicate-free roster stays duplicate-free |
| `Activities.ActivityRoster.UnregisterParticipant` | src/activities.py:46-71 | in-place unregister: each error kind exactly under its condition, the roster unchanged on failure, the new roster equal to `Unregister` of the old one on success, and a duplicate-free roster stays duplicate-free |

## Left out

- The HTTP endpoints that call these functions are not part of this model.
- Exception messages are left out. Only the error kind is modelled.
- Capacity is left out because the code never checks it: `maxParticipants` is stored and carried through unchanged, and no operation enforces it.
- Aliasing is left out. In Python, an activity record and its participant list are mutable objects shared by reference. Two roster keys could name the same object, and a caller could hold the list. Here each record is a value stored in the map, so a change to one activity can never show up under another name.
- Malformed records are left out. A Python record without a `"participants"` key would raise `KeyError`, but here every `Activity` has all four fields.
- Comparison of e-mails and activity names uses exact string equality on `seq<char>`, as Python's `==` on `str` does. There is no case folding or normalisation.
- `Participants.RemoveFirst` requires the e-mail to be in the list. Python's `list.remove` raises `ValueError` otherwise, but its only caller checks membership first, so that path cannot be reached.
- No duplicate-free invariant is required of the roster. Neither Python function demands one of its caller. The lemmas that need it (`UnregisterRemovesEmail`, `UnregisterTwiceFails`, `UnregisterThenSignUp`) take it as a premise, and both methods preserve it.
