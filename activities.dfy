/**
 * The activity roster: a table from activity name to activity record, and
 * the two operations that change it in place, signing a student up for an
 * activity and unregistering a student from one (src/activities.py).
 *
 * The operations are first given as transitions on roster values
 * (`SignUp`, `Unregister`), about which the lemmas below are stated; the
 * class `ActivityRoster` then holds the roster as mutable state and its
 * methods perform the same checks and updates in place.
 */
module Activities {
  import opened Participants

  /** One activity record. `maxParticipants` is stored and never enforced. */
  datatype Activity = Activity(
    description: string,
    schedule: string,
    maxParticipants: int,
    participants: seq<string>)

  /** The roster: activity name to activity record. */
  type Roster = map<string, Activity>

  /**
   * The errors the operations raise: `ActivityNotFound` and
   * `ParticipantNotFound` are the module's own exception classes;
   * `AlreadySignedUp` is the ValueError raised on a duplicate signup.
   */
  datatype Error = ActivityNotFound | AlreadySignedUp | ParticipantNotFound

  datatype Result<+T> = Success(value: T) | Failure(error: Error)

  /** Every activity's participant list is duplicate-free. */
  ghost predicate WellFormed(roster: Roster)
  {
    forall name :: name in roster ==> NoDuplicates(roster[name].participants)
  }

  /**
   * `after` has the same activities as `before`, every activity other than
   * `name` is untouched, and `name` keeps its description, schedule and
   * capacity: at most its participant list differs.
   */
  ghost predicate SameExceptParticipants(before: Roster, after: Roster, name: string)
  {
    && before.Keys == after.Keys
    && (forall other :: other in before && other != name ==> after[other] == before[other])
    && (name in before ==>
          && after[name].description == before[name].description
          && after[name].schedule == before[name].schedule
          && after[name].maxParticipants == before[name].maxParticipants)
  }

  /** The roster with the participant list of `name` replaced. */
  function WithParticipants(roster: Roster, name: string, participants: seq<string>): (r: Roster)
    requires name in roster
    ensures SameExceptParticipants(roster, r, name)
    ensures r[name].participants == participants
  {
    roster[name := roster[name].(participants := participants)]
  }

  /**
   * `signup_participant` on a roster value: fails with ActivityNotFound
   * for an unknown activity, with AlreadySignedUp if the e-mail is already
   * listed, and otherwise appends the e-mail to that activity's list.
   */
  function SignUp(roster: Roster, name: string, email: string): (r: Result<Roster>)
    ensures r.Failure? <==> name !in roster || email in roster[name].participants
    ensures r == Failure(ActivityNotFound) <==> name !in roster
    ensures r == Failure(AlreadySignedUp) <==> name in roster && email in roster[name].participants
    ensures r.Success? ==>
              && SameExceptParticipants(roster, r.value, name)
              && r.value[name].participants == roster[name].participants + [email]
  {
    if name !in roster then Failure(ActivityNotFound)
    else if email in roster[name].participants then Failure(AlreadySignedUp)
    else Success(WithParticipants(roster, name, roster[name].participants + [email]))
  }

  /**
   * `unregister_participant` on a roster value: fails with
   * ActivityNotFound for an unknown activity, with ParticipantNotFound if
   * the e-mail is not listed, and otherwise removes its first occurrence.
   */
  function Unregister(roster: Roster, name: string, email: string): (r: Result<Roster>)
    ensures r.Failure? <==> name !in roster || email !in roster[name].participants
    ensures r == Failure(ActivityNotFound) <==> name !in roster
    ensures r == Failure(ParticipantNotFound) <==> name in roster && email !in roster[name].participants
    ensures r.Success? ==>
              && SameExceptParticipants(roster, r.value, name)
              && |r.value[name].participants| == |roster[name].participants| - 1
              && multiset(r.value[name].participants)
                 == multiset(roster[name].participants) - multiset{email}
  {
    if name !in roster then Failure(ActivityNotFound)
    else if email !in roster[name].participants then Failure(ParticipantNotFound)
    else
      RemoveFirstMultiset(roster[name].participants, email);
      Success(WithParticipants(roster, name, RemoveFirst(roster[name].participants, email)))
  }

  /**
   * A successful unregister deletes exactly the first occurrence of the
   * e-mail and keeps the order of everyone else.
   */
  lemma UnregisterRemovesFirstOccurrence(roster: Roster, name: string, email: string)
    requires Unregister(roster, name, email).Success?
    ensures var before := roster[name].participants;
            var k := FirstIndex(before, email);
            && k < |before|
            && Unregister(roster, name, email).value[name].participants
               == before[..k] + before[k + 1..]
  {
    RemoveFirstAt(roster[name].participants, email);
  }

  /**
   * On a well-formed roster a successful unregister leaves the e-mail no
   * longer listed for that activity.
   */
  lemma UnregisterRemovesEmail(roster: Roster, name: string, email: string)
    requires WellFormed(roster)
    requires Unregister(roster, name, email).Success?
    ensures email in roster[name].participants
    ensures email !in Unregister(roster, name, email).value[name].participants
  {
    RemoveFirstKeepsNoDuplicates(roster[name].participants, email);
  }

  /** Signup keeps every participant list duplicate-free. */
  lemma SignUpPreservesWellFormed(roster: Roster, name: string, email: string)
    requires WellFormed(roster)
    ensures SignUp(roster, name, email).Success? ==> WellFormed(SignUp(roster, name, email).value)
  {
    if SignUp(roster, name, email).Success? {
      AppendKeepsNoDuplicates(roster[name].participants, email);
    }
  }

  /** Unregister keeps every participant list duplicate-free. */
  lemma UnregisterPreservesWellFormed(roster: Roster, name: string, email: string)
    requires WellFormed(roster)
    ensures Unregister(roster, name, email).Success? ==> WellFormed(Unregister(roster, name, email).value)
  {
    if Unregister(roster, name, email).Success? {
      RemoveFirstKeepsNoDuplicates(roster[name].participants, email);
    }
  }

  /** A successful signup followed by unregistering the same e-mail restores the roster. */
  lemma SignUpThenUnregister(roster: Roster, name: string, email: string)
    requires SignUp(roster, name, email).Success?
    ensures Unregister(SignUp(roster, name, email).value, name, email) == Success(roster)
  {
    var after := SignUp(roster, name, email).value;
    RemoveFirstOfAppended(roster[name].participants, email);
    assert WithParticipants(after, name, roster[name].participants) == roster;
  }

  /**
   * A successful unregister followed by signing the same e-mail up again
   * succeeds and gives back the same participants, now with that e-mail
   * at the end of the list.
   */
  lemma UnregisterThenSignUp(roster: Roster, name: string, email: string)
    requires WellFormed(roster)
    requires Unregister(roster, name, email).Success?
    ensures var again := SignUp(Unregister(roster, name, email).value, name, email);
            && again.Success?
            && SameExceptParticipants(roster, again.value, name)
            && again.value[name].participants
               == RemoveFirst(roster[name].participants, email) + [email]
            && multiset(again.value[name].participants) == multiset(roster[name].participants)
            && |again.value[name].participants| == |roster[name].participants|
  {
    RemoveFirstKeepsNoDuplicates(roster[name].participants, email);
  }

  /** Signing up the same e-mail twice: the second attempt fails and changes nothing. */
  lemma SignUpTwiceFails(roster: Roster, name: string, email: string)
    requires SignUp(roster, name, email).Success?
    ensures SignUp(SignUp(roster, name, email).value, name, email) == Failure(AlreadySignedUp)
  {
    var after := SignUp(roster, name, email).value;
    assert after[name].participants[|after[name].participants| - 1] == email;
  }

  /** Unregistering the same e-mail twice: the second attempt fails with ParticipantNotFound. */
  lemma UnregisterTwiceFails(roster: Roster, name: string, email: string)
    requires WellFormed(roster)
    requires Unregister(roster, name, email).Success?
    ensures Unregister(Unregister(roster, name, email).value, name, email) == Failure(ParticipantNotFound)
  {
    RemoveFirstKeepsNoDuplicates(roster[name].participants, email);
  }

  /**
   * Activities are independent: signups of one e-mail to two different
   * activities both succeed in either order, give the same roster, and
   * leave the e-mail listed in both.
   */
  lemma SignUpOtherActivities(roster: Roster, a: string, b: string, email: string)
    requires a != b
    requires SignUp(roster, a, email).Success? && SignUp(roster, b, email).Success?
    ensures var ab := SignUp(SignUp(roster, a, email).value, b, email);
            var ba := SignUp(SignUp(roster, b, email).value, a, email);
            && ab.Success? && ba.Success? && ab == ba
            && email in ab.value[a].participants && email in ab.value[b].participants
  {
    var ra := SignUp(roster, a, email).value;
    var rb := SignUp(roster, b, email).value;
    assert ra[b] == roster[b] && rb[a] == roster[a];
    var ab := SignUp(ra, b, email).value;
    var ba := SignUp(rb, a, email).value;
    assert ab == ba;
    assert ab[a].participants[|ab[a].participants| - 1] == email;
    assert ab[b].participants[|ab[b].participants| - 1] == email;
  }

  /**
   * The roster as state that the operations update in place, as the
   * Python functions mutate the dictionary their caller passes in.
   */
  class ActivityRoster {
    var activities: Roster

    constructor (initial: Roster)
      ensures activities == initial
    {
      activities := initial;
    }

    /** `signup_participant(activities, name, email)`. */
    method SignupParticipant(name: string, email: string) returns (outcome: Result<()>)
      modifies this
      ensures outcome == Failure(ActivityNotFound) <==> name !in old(activities)
      ensures outcome == Failure(AlreadySignedUp)
              <==> name in old(activities) && email in old(activities)[name].participants
      ensures outcome.Failure? ==> activities == old(activities)
      ensures outcome.Success? ==> activities == SignUp(old(activities), name, email).value
      ensures outcome.Success? == SignUp(old(activities), name, email).Success?
      ensures old(WellFormed(activities)) ==> WellFormed(activities)
    {
      if WellFormed(activities) {
        SignUpPreservesWellFormed(activities, name, email);
      }
      if name !in activities {
        return Failure(ActivityNotFound);
      }
      var activity := activities[name];
      if email in activity.participants {
        return Failure(AlreadySignedUp);
      }
      activities := activities[name := activity.(participants := activity.participants + [email])];
      return Success(());
    }

    /** `unregister_participant(activities, name, email)`. */
    method UnregisterParticipant(name: string, email: string) returns (outcome: Result<()>)
      modifies this
      ensures outcome == Failure(ActivityNotFound) <==> name !in old(activities)
      ensures outcome == Failure(ParticipantNotFound)
              <==> name in old(activities) && email !in old(activities)[name].participants
      ensures outcome.Failure? ==> activities == old(activities)
      ensures outcome.Success? ==> activities == Unregister(old(activities), name, email).value
      ensures outcome.Success? == Unregister(old(activities), name, email).Success?
      ensures old(WellFormed(activities)) ==> WellFormed(activities)
    {
      if WellFormed(activities) {
        UnregisterPreservesWellFormed(activities, name, email);
      }
      if name !in activities {
        return Failure(ActivityNotFound);
      }
      var activity := activities[name];
      if email !in activity.participants {
        return Failure(ParticipantNotFound);
      }
      activities := activities[name := activity.(participants := RemoveFirst(activity.participants, email))];
      return Success(());
    }
  }
}
