/** The in-memory activity registry behind `GET /activities`,
    `POST /activities/{name}/signup` and `DELETE /activities/{name}/unregister`.
    `SignupStep` and `UnregisterStep` say what one request does to the registry;
    the `Registry` class performs the same requests in place. */
module ActivityRegistry {
  import opened Strings

  /** An activity record; after startup only its participant list changes. */
  datatype Activity = Activity(
    description: string,
    schedule: string,
    maxParticipants: int,
    participants: seq<string>)

  /** The registry: activity name to record. */
  type Activities = map<string, Activity>

  /** What a request answers: a confirmation, or one of the three client errors. */
  datatype Outcome = Ok(message: string) | NotFound | AlreadySignedUp | NotSignedUp

  /** The answer to one request together with the registry it leaves behind. */
  datatype Step = Step(outcome: Outcome, activities: Activities)

  predicate NoDuplicates(s: seq<string>)
  {
    forall i, j :: 0 <= i < j < |s| ==> s[i] != s[j]
  }

  /** No participant list holds the same email twice. */
  predicate WellFormed(m: Activities)
  {
    forall name :: name in m ==> NoDuplicates(m[name].participants)
  }

  /** `m'` is `m` with the participant list of `name` replaced by `ps` and nothing else changed. */
  predicate OnlyParticipantsChanged(m: Activities, m': Activities, name: string, ps: seq<string>)
    requires name in m
  {
    && m'.Keys == m.Keys
    && m'[name] == m[name].(participants := ps)
    && forall other :: other in m && other != name ==> m'[other] == m[other]
  }

  /** A confirmation message `verb + email + link + name`; it mentions both the email and the activity. */
  function Confirmation(verb: string, email: string, link: string, name: string): (msg: string)
    ensures Contains(msg, email) && Contains(msg, name)
  {
    var msg := verb + email + link + name;
    ContainsMiddle(verb, email, link + name);
    assert msg == verb + email + (link + name);
    ContainsMiddle(verb + email + link, name, "");
    assert msg == verb + email + link + name + "";
    msg
  }

  function SignupMessage(name: string, email: string): string
  {
    Confirmation("Signed up ", email, " for ", name)
  }

  function UnregisterMessage(name: string, email: string): string
  {
    Confirmation("Unregistered ", email, " from ", name)
  }

  /** The `detail` text of an error answer; its lower-cased form names the error kind. */
  function Detail(o: Outcome): (d: string)
    requires !o.Ok?
    ensures o.NotFound? ==> Contains(Lower(d), "not found")
    ensures o.AlreadySignedUp? ==> Contains(Lower(d), "already signed up")
    ensures o.NotSignedUp? ==> Contains(Lower(d), "not signed up")
  {
    match o
    case NotFound =>
      LowerKeeps("Activity", "not found");
      "Activity" + " " + "not found"
    case AlreadySignedUp =>
      LowerKeeps("Student is", "already signed up");
      "Student is" + " " + "already signed up"
    case NotSignedUp =>
      LowerKeeps("Student is", "not signed up");
      "Student is" + " " + "not signed up"
  }

  /** Lower-casing `prefix + " " + phrase` keeps an all-lower-case `phrase` in place. */
  lemma LowerKeeps(prefix: string, phrase: string)
    requires forall i :: 0 <= i < |phrase| ==> !('A' <= phrase[i] <= 'Z')
    ensures Contains(Lower(prefix + " " + phrase), phrase)
  {
    var s := prefix + " " + phrase;
    assert Lower(s) == Lower(prefix + " ") + phrase;
    ContainsMiddle(Lower(prefix + " "), phrase, "");
    assert Lower(prefix + " ") + phrase + "" == Lower(s);
  }

  /** Index of the first occurrence of `x` in `s`. */
  function IndexOf(s: seq<string>, x: string): (i: nat)
    requires x in s
    ensures i < |s| && s[i] == x && x !in s[..i]
  {
    if s[0] == x then 0
    else
      var i := 1 + IndexOf(s[1..], x);
      assert s[..i] == [s[0]] + s[1..][..i - 1];
      i
  }

  /** Python's `list.remove(x)`: drop the first occurrence of `x`, keep the rest in order. */
  function RemoveFirst(s: seq<string>, x: string): (r: seq<string>)
    requires x in s
    ensures |r| == |s| - 1
    ensures multiset(r) == multiset(s) - multiset{x}
    ensures forall k :: 0 <= k < |r| ==> r[k] == (if k < IndexOf(s, x) then s[k] else s[k + 1])
  {
    var i := IndexOf(s, x);
    assert s == s[..i] + [x] + s[i + 1..];
    s[..i] + s[i + 1..]
  }

  /** Removing an email from a duplicate-free list leaves a duplicate-free list without it. */
  lemma RemoveFirstNoDuplicates(s: seq<string>, x: string)
    requires x in s && NoDuplicates(s)
    ensures NoDuplicates(RemoveFirst(s, x))
    ensures x !in RemoveFirst(s, x)
  {
    var i := IndexOf(s, x);
    var r := RemoveFirst(s, x);
    forall k | 0 <= k < |r|
      ensures r[k] != x
    {
      if k < i {
        assert s[..i][k] == r[k];
      } else {
        assert s[k + 1] != s[i];
      }
    }
  }

  /** Appending an absent email and removing it again restores the list. */
  lemma RemoveFirstAppended(s: seq<string>, x: string)
    requires x !in s
    ensures x in s + [x] && RemoveFirst(s + [x], x) == s
  {
    var t := s + [x];
    assert t[|s|] == x;
    var i := IndexOf(t, x);
    assert i == |s|;
    assert t[..i] == s;
  }

  /** `POST /activities/{name}/signup?email=...`: the activity must exist (checked first),
      then the email must not be on its list; on success the email is appended. */
  function SignupStep(m: Activities, name: string, email: string): (r: Step)
    ensures name !in m ==> r == Step(NotFound, m)
    ensures name in m && email in m[name].participants ==> r == Step(AlreadySignedUp, m)
    ensures name in m && email !in m[name].participants ==>
      && r.outcome.Ok?
      && Contains(r.outcome.message, email) && Contains(r.outcome.message, name)
      && OnlyParticipantsChanged(m, r.activities, name, m[name].participants + [email])
  {
    if name !in m then Step(NotFound, m)
    else if email in m[name].participants then Step(AlreadySignedUp, m)
    else
      var a := m[name];
      Step(Ok(SignupMessage(name, email)), m[name := a.(participants := a.participants + [email])])
  }

  /** `DELETE /activities/{name}/unregister?email=...`: the activity must exist (checked
      first), then the email must be on its list; on success it is removed. */
  function UnregisterStep(m: Activities, name: string, email: string): (r: Step)
    ensures name !in m ==> r == Step(NotFound, m)
    ensures name in m && email !in m[name].participants ==> r == Step(NotSignedUp, m)
    ensures name in m && email in m[name].participants ==>
      && r.outcome.Ok?
      && Contains(r.outcome.message, email) && Contains(r.outcome.message, name)
      && OnlyParticipantsChanged(m, r.activities, name, RemoveFirst(m[name].participants, email))
      && |r.activities[name].participants| == |m[name].participants| - 1
  {
    if name !in m then Step(NotFound, m)
    else if email !in m[name].participants then Step(NotSignedUp, m)
    else
      var a := m[name];
      Step(Ok(UnregisterMessage(name, email)), m[name := a.(participants := RemoveFirst(a.participants, email))])
  }

  /** Signup never puts an email on a list twice. */
  lemma SignupKeepsWellFormed(m: Activities, name: string, email: string)
    requires WellFormed(m)
    ensures WellFormed(SignupStep(m, name, email).activities)
  {
    var m' := SignupStep(m, name, email).activities;
    if name in m && email !in m[name].participants {
      var ps := m[name].participants + [email];
      forall i, j | 0 <= i < j < |ps| ensures ps[i] != ps[j] {
        if j == |ps| - 1 {
          assert ps[i] in m[name].participants;
        }
      }
    }
  }

  /** Unregister keeps every list duplicate-free, and the email is gone after success. */
  lemma UnregisterKeepsWellFormed(m: Activities, name: string, email: string)
    requires WellFormed(m)
    ensures WellFormed(UnregisterStep(m, name, email).activities)
    ensures UnregisterStep(m, name, email).outcome.Ok? ==>
      name in m && email !in UnregisterStep(m, name, email).activities[name].participants
  {
    if name in m && email in m[name].participants {
      RemoveFirstNoDuplicates(m[name].participants, email);
    }
  }

  /** A fresh signup followed by an unregister of the same email: the list grows by exactly
      one with the email on it, then the registry is exactly as before. */
  lemma SignupThenUnregisterRestores(m: Activities, name: string, email: string)
    requires name in m && email !in m[name].participants
    ensures var s1 := SignupStep(m, name, email);
      && s1.outcome.Ok?
      && email in s1.activities[name].participants
      && |s1.activities[name].participants| == |m[name].participants| + 1
      && var s2 := UnregisterStep(s1.activities, name, email);
      && s2.outcome.Ok?
      && s2.activities == m
  {
    var s1 := SignupStep(m, name, email);
    var ps := m[name].participants;
    assert s1.activities[name].participants == ps + [email];
    RemoveFirstAppended(ps, email);
    var s2 := UnregisterStep(s1.activities, name, email);
    assert s2.activities[name] == m[name];
    assert s2.activities == m;
  }

  /** Unregister is not idempotent: repeating a successful unregister fails. */
  lemma UnregisterTwiceFails(m: Activities, name: string, email: string)
    requires WellFormed(m)
    requires UnregisterStep(m, name, email).outcome.Ok?
    ensures UnregisterStep(UnregisterStep(m, name, email).activities, name, email).outcome == NotSignedUp
  {
    UnregisterKeepsWellFormed(m, name, email);
  }

  /** The same email can join two different activities; after both signups it is on both lists. */
  lemma SignupToTwoActivities(m: Activities, first: string, second: string, email: string)
    requires first in m && second in m && first != second
    requires email !in m[first].participants && email !in m[second].participants
    ensures var s1 := SignupStep(m, first, email);
      && s1.outcome.Ok?
      && var s2 := SignupStep(s1.activities, second, email);
      && s2.outcome.Ok?
      && email in s2.activities[first].participants
      && email in s2.activities[second].participants
  {
    var s1 := SignupStep(m, first, email);
    assert s1.activities[first].participants == m[first].participants + [email];
    assert s1.activities[second] == m[second];
    var s2 := SignupStep(s1.activities, second, email);
    assert s2.activities[first] == s1.activities[first];
    assert s2.activities[second].participants == m[second].participants + [email];
  }

  /** What the tests take for granted about the startup data: the nine activities, a
      non-empty Chess Club roster holding michael@mergington.edu, no "Nonexistent Club",
      and the emails they sign up being new to the lists they use. */
  predicate TestedSeed(m: Activities)
  {
    && "Chess Club" in m && "Programming Class" in m && "Gym Class" in m
    && "Basketball Team" in m && "Tennis Club" in m && "Art Studio" in m
    && "Drama Club" in m && "Debate Team" in m && "Science Club" in m
    && "Nonexistent Club" !in m
    && |m["Chess Club"].participants| > 0
    && "michael@mergington.edu" in m["Chess Club"].participants
    && "newstudent@mergington.edu" !in m["Chess Club"].participants
    && "notregistered@mergington.edu" !in m["Chess Club"].participants
    && "integration@mergington.edu" !in m["Chess Club"].participants
    && "test@mergington.edu" !in m["Chess Club"].participants
    && "test@mergington.edu" !in m["Programming Class"].participants
  }

  /** The single-request expectations of the signup and unregister tests, from the startup data. */
  lemma SeedRequests(m: Activities)
    requires WellFormed(m) && TestedSeed(m)
    ensures SignupStep(m, "Chess Club", "newstudent@mergington.edu").outcome.Ok?
    ensures "newstudent@mergington.edu" in SignupStep(m, "Chess Club", "newstudent@mergington.edu").activities["Chess Club"].participants
    ensures SignupStep(m, "Chess Club", "michael@mergington.edu").outcome == AlreadySignedUp
    ensures SignupStep(m, "Nonexistent Club", "student@mergington.edu").outcome == NotFound
    ensures UnregisterStep(m, "Chess Club", "michael@mergington.edu").outcome.Ok?
    ensures "michael@mergington.edu" !in UnregisterStep(m, "Chess Club", "michael@mergington.edu").activities["Chess Club"].participants
    ensures UnregisterStep(m, "Chess Club", "notregistered@mergington.edu").outcome == NotSignedUp
    ensures UnregisterStep(m, "Nonexistent Club", "student@mergington.edu").outcome == NotFound
    ensures UnregisterStep(UnregisterStep(m, "Chess Club", "michael@mergington.edu").activities,
                           "Chess Club", "michael@mergington.edu").outcome == NotSignedUp
    ensures var s1 := SignupStep(m, "Chess Club", "test@mergington.edu");
      && s1.outcome.Ok?
      && var s2 := SignupStep(s1.activities, "Programming Class", "test@mergington.edu");
      && s2.outcome.Ok?
      && "test@mergington.edu" in s2.activities["Chess Club"].participants
      && "test@mergington.edu" in s2.activities["Programming Class"].participants
    ensures var s1 := SignupStep(m, "Chess Club", "integration@mergington.edu");
      && s1.outcome.Ok?
      && UnregisterStep(s1.activities, "Chess Club", "integration@mergington.edu").outcome.Ok?
      && UnregisterStep(s1.activities, "Chess Club", "integration@mergington.edu").activities == m
  {
    UnregisterKeepsWellFormed(m, "Chess Club", "michael@mergington.edu");
    UnregisterTwiceFails(m, "Chess Club", "michael@mergington.edu");
    SignupToTwoActivities(m, "Chess Club", "Programming Class", "test@mergington.edu");
    SignupThenUnregisterRestores(m, "Chess Club", "integration@mergington.edu");
  }

  /** The registry object the request handlers share and update in place. */
  class Registry {
    var activities: Activities

    ghost predicate Valid()
      reads this
    {
      WellFormed(activities)
    }

    constructor (seed: Activities)
      requires WellFormed(seed)
      ensures Valid() && activities == seed
    {
      activities := seed;
    }

    /** `GET /activities`: the whole registry as it stands. */
    method List() returns (r: Activities)
      requires Valid()
      ensures r == activities && WellFormed(r)
    {
      r := activities;
    }

    method Signup(name: string, email: string) returns (o: Outcome)
      requires Valid()
      modifies this
      ensures Valid()
      ensures Step(o, activities) == SignupStep(old(activities), name, email)
    {
      if name !in activities {
        return NotFound;
      }
      var a := activities[name];
      if email in a.participants {
        return AlreadySignedUp;
      }
      SignupKeepsWellFormed(activities, name, email);
      activities := activities[name := a.(participants := a.participants + [email])];
      o := Ok(SignupMessage(name, email));
    }

    method Unregister(name: string, email: string) returns (o: Outcome)
      requires Valid()
      modifies this
      ensures Valid()
      ensures Step(o, activities) == UnregisterStep(old(activities), name, email)
    {
      if name !in activities {
        return NotFound;
      }
      var a := activities[name];
      if email !in a.participants {
        return NotSignedUp;
      }
      UnregisterKeepsWellFormed(activities, name, email);
      activities := activities[name := a.(participants := RemoveFirst(a.participants, email))];
      o := Ok(UnregisterMessage(name, email));
    }
  }

  /** The end-to-end flow: sign a fresh email up to an activity, then unregister it. */
  method SignupUnregisterFlow(r: Registry, name: string, email: string)
      returns (first: Outcome, second: Outcome)
    requires r.Valid() && name in r.activities && email !in r.activities[name].participants
    modifies r
    ensures r.Valid()
    ensures first.Ok? && Contains(first.message, email)
    ensures second.Ok? && Contains(second.message, email)
    ensures r.activities == old(r.activities)
  {
    ghost var initial := r.activities;
    SignupThenUnregisterRestores(initial, name, email);
    first := r.Signup(name, email);
    assert email in r.activities[name].participants;
    assert |r.activities[name].participants| == |initial[name].participants| + 1;
    second := r.Unregister(name, email);
  }
}
