/** searchBySkill and search_users_by with a skill list, on heap-allocated persons that are freed by hand. */
module UserSearch {
  import opened Bytes
  import opened Wrappers
  import opened MailLists
  import opened UserKeys
  import opened UserIndex
  import opened UserOps
  import opened UserTyping
  import opened UserRuns
  import opened UserEffects
  import opened PersonStore

  // ---------- What a search finds ----------

  /** Person::has_every_skill: the asked skills in any letter case. */
  predicate HasEverySkill(p: Person, skills: seq<bytes>) {
    forall i :: 0 <= i < |skills| ==> Lower(skills[i]) in p.skills
  }

  /** The records found under some mails, in order. */
  function Users(db: Db, mails: seq<bytes>): seq<Person> {
    if mails == [] then []
    else
      var last := mails[|mails| - 1];
      Users(db, mails[..|mails| - 1]) + (if IsUser(db, last) then [User(db, last)] else [])
  }

  /** If none of the lookups fails, there is one record for each mail. */
  lemma {:induction false} UsersOfAll(db: Db, mails: seq<bytes>)
    requires forall m <- mails :: IsUser(db, m)
    ensures |Users(db, mails)| == |mails|
    ensures forall i :: 0 <= i < |mails| ==> Users(db, mails)[i] == User(db, mails[i])
  {
    hide IsUser, User;
    if mails != [] {
      assert mails[|mails| - 1] in mails;
      UsersOfAll(db, mails[..|mails| - 1]);
    }
  }

  function WithSkills(persons: seq<Person>, skills: seq<bytes>): seq<Person> {
    if persons == [] then []
    else
      WithSkills(persons[..|persons| - 1], skills)
      + (if HasEverySkill(persons[|persons| - 1], skills) then [persons[|persons| - 1]] else [])
  }

  /** The result of searchBySkill. */
  function SkillSearch(db: Db, skills: seq<bytes>): seq<Person>
    requires skills != []
  {
    WithSkills(Users(db, ListOf(db, Lower(skills[0]))), skills)
  }

  /** A list of all users, each once, as a scan of the store yields it. */
  ghost predicate IsScan(db: Db, all: seq<Person>) {
    && (forall i, j :: 0 <= i < j < |all| ==> all[i] != all[j])
    && (forall p: Person :: p in all <==> IsUser(db, p.email) && User(db, p.email) == p)
  }

  /** Filtering a list in two parts: the order is kept. */
  lemma {:induction false} WithSkillsSplit(a: seq<Person>, b: seq<Person>, skills: seq<bytes>)
    ensures WithSkills(a + b, skills) == WithSkills(a, skills) + WithSkills(b, skills)
  {
    hide HasEverySkill;
    if b == [] {
      assert a + b == a;
    } else {
      var n := |b| - 1;
      assert (a + b)[..|a| + n] == a + b[..n];
      WithSkillsSplit(a, b[..n], skills);
    }
  }

  lemma {:induction false} WithSkillsMembers(persons: seq<Person>, skills: seq<bytes>)
    requires forall i, j :: 0 <= i < j < |persons| ==> persons[i] != persons[j]
    ensures forall p :: p in WithSkills(persons, skills) <==> p in persons && HasEverySkill(p, skills)
    ensures forall p :: multiset(WithSkills(persons, skills))[p] <= 1
  {
    hide HasEverySkill;
    if persons != [] {
      var front, last := persons[..|persons| - 1], persons[|persons| - 1];
      WithSkillsMembers(front, skills);
      assert last !in front;
      assert persons == front + [last];
    }
  }

  lemma {:induction false} SameMultiset(a: seq<Person>, b: seq<Person>)
    requires forall p :: multiset(a)[p] <= 1 && multiset(b)[p] <= 1
    requires forall p :: p in a <==> p in b
    ensures multiset(a) == multiset(b)
  {
    forall p
      ensures multiset(a)[p] == multiset(b)[p]
    {
      assert p in multiset(a) <==> p in a;
      assert p in multiset(b) <==> p in b;
    }
  }

  lemma Listed(db: Db, skill: bytes, m: bytes)
    requires SkillsOk(db)
    ensures m in ListOf(db, skill) <==> IsUser(db, m) && skill in User(db, m).skills
  {
    hide ListsOk, ListOf, IsUser, User;
  }

  /** What stands under a skill's key, and that every mail of it is a user's. */
  lemma SkillEntry(db: Db, skill: bytes)
    requires SkillsOk(db)
    ensures Key(SkillIndex, skill) !in db ==> ListOf(db, skill) == []
    ensures Key(SkillIndex, skill) in db ==>
              db[Key(SkillIndex, skill)].Text? && ListOf(db, skill) == Split(db[Key(SkillIndex, skill)].text)
    ensures forall m <- ListOf(db, skill) :: IsUser(db, m)
    ensures Distinct(ListOf(db, skill))
  {
    hide SkillsOk, IsUser, User, ListOf, ListsOk, Key;
    forall m | m in ListOf(db, skill)
      ensures IsUser(db, m)
    {
      Listed(db, skill, m);
    }
    EntryForm(db, skill);
  }

  lemma EntryForm(db: Db, skill: bytes)
    requires SkillsOk(db)
    ensures Key(SkillIndex, skill) !in db ==> ListOf(db, skill) == []
    ensures Key(SkillIndex, skill) in db ==>
              db[Key(SkillIndex, skill)].Text? && ListOf(db, skill) == Split(db[Key(SkillIndex, skill)].text)
    ensures Distinct(ListOf(db, skill))
  {
    hide Key, IsUser, User, Split, IsList;
  }

  lemma FoundUsers(db: Db, skill: bytes)
    requires RecordsOk(db) && SkillsOk(db)
    ensures var found := Users(db, ListOf(db, skill));
            && (forall i, j :: 0 <= i < j < |found| ==> found[i] != found[j])
            && (forall p: Person :: p in found <==> IsUser(db, p.email) && User(db, p.email) == p && skill in p.skills)
  {
    hide RecordsOk, SkillsOk, ListOf, IsUser, User, Key, Users;
    var mails := ListOf(db, skill);
    var found := Users(db, mails);
    SkillEntry(db, skill);
    UsersOfAll(db, mails);
    forall i | 0 <= i < |mails|
      ensures found[i].email == mails[i] && IsUser(db, mails[i]) && User(db, mails[i]) == found[i]
      ensures skill in found[i].skills
    {
      assert mails[i] in mails;
      Listed(db, skill, mails[i]);
      UserFacts(db, mails[i]);
    }
    forall p: Person | IsUser(db, p.email) && User(db, p.email) == p && skill in p.skills
      ensures p in found
    {
      Listed(db, skill, p.email);
      var i :| 0 <= i < |mails| && mails[i] == p.email;
      assert found[i] == p;
    }
  }

  /** The indexed search returns exactly the users a full scan with has_every_skill returns, each once. */
  lemma SearchMatchesScan(db: Db, skills: seq<bytes>, all: seq<Person>)
    requires Inv(db) && skills != [] && IsScan(db, all)
    ensures multiset(SkillSearch(db, skills)) == multiset(WithSkills(all, skills))
    ensures forall p: Person :: p in SkillSearch(db, skills) <==>
                        IsUser(db, p.email) && User(db, p.email) == p && HasEverySkill(p, skills)
  {
    hide RecordsOk, IndexOk, LastOk, SkillsOk, ListOf, IsUser, User, HasEverySkill, Lower, WithSkills, Users;
    var skill := Lower(skills[0]);
    FoundUsers(db, skill);
    WithSkillsMembers(Users(db, ListOf(db, skill)), skills);
    WithSkillsMembers(all, skills);
    FirstSkill(skills);
    SameMultiset(SkillSearch(db, skills), WithSkills(all, skills));
  }

  lemma FirstSkill(skills: seq<bytes>)
    requires skills != []
    ensures forall p: Person :: HasEverySkill(p, skills) ==> Lower(skills[0]) in p.skills
  {
    hide Lower;
  }

  // ---------- Letter case ----------

  /** Two lists of skills that differ in the case of letters only. */
  predicate SameSkills(a: seq<bytes>, b: seq<bytes>) {
    |a| == |b| && forall i :: 0 <= i < |a| ==> SameLetters(a[i], b[i])
  }

  /** The skill is one of the user's, up to the case of letters. */
  predicate Knows(p: Person, skill: bytes) { exists j :: 0 <= j < |p.skills| && SameLetters(skill, p.skills[j]) }

  predicate KnowsAll(p: Person, skills: seq<bytes>) { forall i :: 0 <= i < |skills| ==> Knows(p, skills[i]) }

  lemma NormalSkill(p: Person, skill: bytes)
    requires Normal(p)
    ensures Lower(skill) in p.skills <==> Knows(p, skill)
  {
    hide Lower, SameLetters;
    forall j | 0 <= j < |p.skills|
      ensures Lower(p.skills[j]) == p.skills[j]
    {
      assert LowerAll(p.skills)[j] == Lower(p.skills[j]);
    }
    forall j | 0 <= j < |p.skills|
      ensures SameLetters(skill, p.skills[j]) <==> Lower(skill) == p.skills[j]
    {
      LowerSame(skill, p.skills[j]);
    }
  }

  lemma NormalKnows(p: Person, skills: seq<bytes>)
    requires Normal(p)
    ensures HasEverySkill(p, skills) <==> KnowsAll(p, skills)
  {
    hide Lower, Normal, Knows;
    forall i | 0 <= i < |skills|
      ensures Lower(skills[i]) in p.skills <==> Knows(p, skills[i])
    {
      NormalSkill(p, skills[i]);
    }
  }

  /** The search returns exactly the users that know all the skills, in whatever letter case they are written. */
  lemma SearchFinds(db: Db, skills: seq<bytes>, p: Person)
    requires Inv(db) && skills != []
    ensures p in SkillSearch(db, skills) <==> IsUser(db, p.email) && User(db, p.email) == p && KnowsAll(p, skills)
  {
    hide RecordsOk, IndexOk, LastOk, SkillsOk, ListOf, IsUser, User, HasEverySkill, KnowsAll, Lower, WithSkills, Users,
         Normal;
    var skill := Lower(skills[0]);
    FoundUsers(db, skill);
    WithSkillsMembers(Users(db, ListOf(db, skill)), skills);
    FirstSkill(skills);
    if IsUser(db, p.email) && User(db, p.email) == p {
      UserFacts(db, p.email);
      NormalKnows(p, skills);
    }
  }

  lemma {:induction false} WithSkillsSame(persons: seq<Person>, a: seq<bytes>, b: seq<bytes>)
    requires forall p: Person :: HasEverySkill(p, a) <==> HasEverySkill(p, b)
    ensures WithSkills(persons, a) == WithSkills(persons, b)
  {
    hide HasEverySkill;
    if persons != [] {
      WithSkillsSame(persons[..|persons| - 1], a, b);
    }
  }

  /** On any store, the case of letters in the skills asked for makes no difference. */
  lemma SearchAnyCase(db: Db, a: seq<bytes>, b: seq<bytes>)
    requires a != [] && SameSkills(a, b)
    ensures SkillSearch(db, a) == SkillSearch(db, b)
  {
    hide Lower, SameLetters, Users, ListOf, WithSkills;
    forall i | 0 <= i < |a|
      ensures Lower(a[i]) == Lower(b[i])
    {
      LowerSame(a[i], b[i]);
    }
    WithSkillsSame(Users(db, ListOf(db, Lower(a[0]))), a, b);
  }

  /** A user saved with a skill is found by it, however the two are written. */
  lemma SavedFound(db: Db, profile: Person, forceID: int, i: nat, asked: bytes)
    requires Inv(db) && Fits(db, Save(profile, forceID)) && SavePerson(db, profile, forceID).1.Done?
    requires i < |profile.skills| && SameLetters(profile.skills[i], asked)
    ensures var (now, outcome) := SavePerson(db, profile, forceID);
            exists p: Person :: p in SkillSearch(now, [asked]) && NewUser(profile, outcome.id, p)
  {
    hide Inv, Fits, SavePerson, SkillSearch, IsUser, User, Typed, Stored, NextId, Lower, KnowsAll, NewUser;
    var (now, outcome) := SavePerson(db, profile, forceID);
    InvTyped(db);
    SavePersonStores(db, profile, forceID);
    CallInv(db, Save(profile, forceID));
    assert now == After(db, Save(profile, forceID));
    var p := User(now, Lower(profile.email));
    SavedKnows(profile, outcome.id, p, i, asked);
    UserThere(now, profile, p);
    SearchFinds(now, [asked], p);
  }

  lemma SavedKnows(profile: Person, id: int, p: Person, i: nat, asked: bytes)
    requires NewUser(profile, id, p) && i < |profile.skills| && SameLetters(profile.skills[i], asked)
    ensures KnowsAll(p, [asked]) && p.email == Lower(profile.email)
  {
    hide Lower;
    LowerIs(profile.email, p.email);
    assert Lowered(profile.skills[i], p.skills[i]);
    forall k | 0 <= k < |asked|
      ensures SameLetter(asked[k], p.skills[i][k])
    {
      assert SameLetter(profile.skills[i][k], asked[k]) && SameLetter(profile.skills[i][k], p.skills[i][k]);
    }
  }

  lemma UserThere(now: Db, profile: Person, p: Person)
    requires IsUser(now, Lower(profile.email)) && p == User(now, Lower(profile.email))
    requires p.email == Lower(profile.email)
    ensures IsUser(now, p.email) && User(now, p.email) == p
  {
    hide IsUser, User;
  }

  // ---------- Persons on the heap ----------

  /** A Person made by new; `delete` on it may be called once. */
  class PersonObject {
    const person: Person
    var freed: bool

    constructor (person: Person)
      ensures this.person == person && !freed
    {
      this.person, freed := person, false;
    }

    method Delete()
      requires !freed
      modifies this
      ensures freed
    {
      freed := true;
    }
  }

  function Persons(objects: seq<PersonObject>): (r: seq<Person>)
    ensures |r| == |objects|
    ensures forall i :: 0 <= i < |r| ==> r[i] == objects[i].person
  {
    seq(|objects|, i requires 0 <= i < |objects| => objects[i].person)
  }

  ghost predicate Separate(objects: seq<PersonObject>) {
    forall i, j :: 0 <= i < j < |objects| ==> objects[i] != objects[j]
  }

  /** Of some objects exactly the ones in `kept` are still alive. */
  ghost predicate OnlyAlive(objects: seq<PersonObject>, kept: seq<PersonObject>)
    reads objects
  {
    forall i :: 0 <= i < |objects| ==> (objects[i] in kept <==> !objects[i].freed)
  }

  method CheckSkills(p: Person, skills: seq<bytes>) returns (all: bool)
    ensures all == HasEverySkill(p, skills)
  {
    for i := 0 to |skills|
      invariant forall j :: 0 <= j < i ==> Lower(skills[j]) in p.skills
    {
      var has := Contains(p.skills, Lower(skills[i]));
      if !has {
        return false;
      }
    }
    all := true;
  }

  /** The lookups of searchBySkill: none of them fails. */
  method LoadUsers(manager: PersonManager, mails: seq<bytes>) returns (found: seq<PersonObject>)
    requires RecordsOk(manager.db) && forall m <- mails :: IsUser(manager.db, m)
    ensures Persons(found) == Users(manager.db, mails) && Separate(found) && fresh(found)
    ensures forall i :: 0 <= i < |found| ==> !found[i].freed
  {
    hide RecordsOk, IsUser, User, Users;
    UsersOfAll(manager.db, mails);
    found := [];
    for i := 0 to |mails|
      invariant |found| == i && Separate(found) && fresh(found)
      invariant forall j :: 0 <= j < i ==> found[j].person == User(manager.db, mails[j]) && !found[j].freed
    {
      assert mails[i] in mails;
      var user := manager.GetUserByMail(mails[i]);
      var loaded := new PersonObject(user.value);
      found := found + [loaded];
    }
  }

  /** searchBySkill: the users with all the skills; the other ones it has loaded are freed. */
  method SearchBySkill(manager: PersonManager, skills: seq<bytes>)
    returns (result: seq<PersonObject>, ghost loaded: seq<PersonObject>)
    requires Inv(manager.db) && skills != []
    ensures Persons(result) == SkillSearch(manager.db, skills)
    ensures Separate(result) && fresh(result) && OnlyAlive(loaded, result)
    ensures forall i :: 0 <= i < |result| ==> !result[i].freed
  {
    hide RecordsOk, IndexOk, LastOk, SkillsOk, IsUser, User, Key, KindOf, PartOf, ListOf, Split, Separate, Lower,
         WithSkills, Users, Persons, OnlyAlive;
    var key := Key(SkillIndex, Lower(skills[0]));
    SkillEntry(manager.db, Lower(skills[0]));
    NothingFound(manager.db, skills);
    if key !in manager.db {
      result, loaded := [], [];
      return;
    }
    var mails := SplitText(manager.db[key].text);
    var found := LoadUsers(manager, mails);
    result := KeepSkilled(found, skills);
    loaded := found;
    assert forall k :: 0 <= k < |result| ==> result[k] in result && result[k] in found && !result[k].freed;
  }

  lemma NothingFound(db: Db, skills: seq<bytes>)
    ensures Separate([]) && OnlyAlive([], []) && Persons([]) == [] == WithSkills(Users(db, []), skills)
  {
  }

  /** The second loop of searchBySkill */
  method KeepSkilled(found: seq<PersonObject>, skills: seq<bytes>) returns (result: seq<PersonObject>)
    requires Separate(found) && forall i :: 0 <= i < |found| ==> !found[i].freed
    modifies found
    ensures Persons(result) == WithSkills(Persons(found), skills)
    ensures Separate(result) && OnlyAlive(found, result)
    ensures forall o <- result :: o in found && !o.freed
  {
    hide HasEverySkill;
    result := [];
    ghost var persons := Persons(found);
    assert persons[..0] == [];
    for i := 0 to |found|
      invariant Persons(result) == WithSkills(persons[..i], skills)
      invariant Separate(result) && forall o <- result :: o in found[..i] && !o.freed
      invariant forall j :: 0 <= j < i ==> (found[j] in result <==> !found[j].freed)
      invariant forall j :: i <= j < |found| ==> !found[j].freed
    {
      assert persons[..i + 1][..i] == persons[..i];
      assert found[i] !in found[..i];
      var all := CheckSkills(found[i].person, skills);
      if all {
        assert Persons(result + [found[i]]) == Persons(result) + [found[i].person];
        result := result + [found[i]];
      } else {
        found[i].Delete();
      }
    }
    assert persons[..|found|] == persons;
  }

  // ---------- search_users_by ----------

  /** The tests of the later criteria that were given: position, mail, name and distance. */
  function Given(test: Option<Person -> bool>): (r: seq<Person -> bool>)
    ensures |r| <= 1
  {
    if test.None? then [] else [test.value]
  }

  predicate Passes(p: Person, tests: seq<Person -> bool>) {
    forall k :: 0 <= k < |tests| ==> tests[k](p)
  }

  function Passing(objects: seq<PersonObject>, tests: seq<Person -> bool>): seq<PersonObject> {
    if objects == [] then []
    else
      var last := objects[|objects| - 1];
      Passing(objects[..|objects| - 1], tests) + (if Passes(last.person, tests) then [last] else [])
  }

  /** Filtering a list in two parts: the order is kept. */
  lemma {:induction false} PassingSplit(a: seq<PersonObject>, b: seq<PersonObject>, tests: seq<Person -> bool>)
    ensures Passing(a + b, tests) == Passing(a, tests) + Passing(b, tests)
  {
    hide Passes;
    if b == [] {
      assert a + b == a;
    } else {
      var n := |b| - 1;
      assert (a + b)[..|a| + n] == a + b[..n];
      PassingSplit(a, b[..n], tests);
    }
  }

  lemma {:induction false} PassingMembers(objects: seq<PersonObject>, tests: seq<Person -> bool>)
    ensures forall o: PersonObject :: o in Passing(objects, tests) <==> o in objects && Passes(o.person, tests)
  {
    hide Passes;
    if objects != [] {
      PassingMembers(objects[..|objects| - 1], tests);
      assert objects == objects[..|objects| - 1] + [objects[|objects| - 1]];
    }
  }

  /** Between two criteria: failed objects are nulled in the vector and put aside, each once. */
  ghost predicate Sieved(found: seq<PersonObject>, partial: array<PersonObject?>, descarte: seq<PersonObject>,
                         tests: seq<Person -> bool>)
    reads partial
  {
    && partial.Length == |found| && Separate(descarte)
    && (forall i :: 0 <= i < |found| ==> partial[i] == if Passes(found[i].person, tests) then found[i] else null)
    && (forall o <- descarte :: o in found && !Passes(o.person, tests))
    && (forall o <- found :: !Passes(o.person, tests) ==> o in descarte)
  }

  /** One criterion of search_users_by, if it was given. */
  method Sieve(partial: array<PersonObject?>, test: Option<Person -> bool>, descarte: seq<PersonObject>,
               ghost found: seq<PersonObject>, ghost tests: seq<Person -> bool>) returns (now: seq<PersonObject>)
    requires Separate(found) && Sieved(found, partial, descarte, tests)
    modifies partial
    ensures Sieved(found, partial, now, tests + Given(test))
  {
    if test.None? {
      assert tests + Given(test) == tests;
      return descarte;
    }
    hide Passes;
    var t := test.value;
    now := descarte;
    for i := 0 to partial.Length
      invariant partial.Length == |found|
      invariant forall j :: i <= j < |found| ==>
                  partial[j] == if Passes(found[j].person, tests) then found[j] else null
      invariant forall j :: 0 <= j < i ==>
                  partial[j] == if Passes(found[j].person, tests) && t(found[j].person) then found[j] else null
      invariant Separate(now)
      invariant forall o: PersonObject :: o in now <==>
                  (o in found && !Passes(o.person, tests)) || (o in found[..i] && !t(o.person))
    {
      assert found[i] !in found[..i];
      assert found[..i + 1] == found[..i] + [found[i]];
      if partial[i] != null {
        var candidate := partial[i];
        if !t(candidate.person) {
          now := now + [candidate];
          partial[i] := null;
        }
      }
    }
    assert found[..|found|] == found;
    forall p: Person
      ensures Passes(p, tests + Given(test)) <==> Passes(p, tests) && t(p)
    {
      PassesBoth(p, tests, t);
    }
  }

  lemma PassesBoth(p: Person, tests: seq<Person -> bool>, t: Person -> bool)
    ensures Passes(p, tests + [t]) <==> Passes(p, tests) && t(p)
  {
    if Passes(p, tests + [t]) {
      assert (tests + [t])[|tests|] == t;
      forall k | 0 <= k < |tests|
        ensures tests[k](p)
      {
        assert (tests + [t])[k] == tests[k];
      }
    }
  }

  /** search_users_by with a skill list: the persons of the skill search that pass all further tests, in their
      order; every person of the skill search is either returned or freed, exactly once. */
  method SearchUsersBy(manager: PersonManager, skills: seq<bytes>, position: Option<Person -> bool>,
                       mail: Option<Person -> bool>, name: Option<Person -> bool>, distance: Option<Person -> bool>)
    returns (result: seq<PersonObject>, ghost found: seq<PersonObject>)
    requires Inv(manager.db) && skills != []
    ensures Persons(found) == SkillSearch(manager.db, skills) && Separate(found) && fresh(found)
    ensures result == Passing(found, Given(position) + Given(mail) + Given(name) + Given(distance))
    ensures OnlyAlive(found, result)
  {
    hide Inv, SkillSearch, Passes, Sieved, Given, Separate, Passing, OnlyAlive;
    var objects;
    ghost var loaded;
    objects, loaded := SearchBySkill(manager, skills);
    found := objects;
    var partial := new PersonObject?[|objects|](i requires 0 <= i < |objects| => objects[i]);
    NothingSieved(found, partial);
    var descarte := Sieve(partial, position, [], found, []);
    assert [] + Given(position) == Given(position);
    descarte := Sieve(partial, mail, descarte, found, Given(position));
    descarte := Sieve(partial, name, descarte, found, Given(position) + Given(mail));
    descarte := Sieve(partial, distance, descarte, found, Given(position) + Given(mail) + Given(name));
    result := Finish(partial, descarte, found, Given(position) + Given(mail) + Given(name) + Given(distance));
  }

  lemma NothingSieved(found: seq<PersonObject>, partial: array<PersonObject?>)
    requires partial.Length == |found| && forall i :: 0 <= i < |found| ==> partial[i] == found[i]
    ensures Sieved(found, partial, [], [])
  {
  }

  /** The two last loops: what is left is returned, what was put aside is freed. */
  method Finish(partial: array<PersonObject?>, descarte: seq<PersonObject>, ghost found: seq<PersonObject>,
                ghost tests: seq<Person -> bool>)
    returns (result: seq<PersonObject>)
    requires Separate(found) && Sieved(found, partial, descarte, tests)
    requires forall i :: 0 <= i < |found| ==> !found[i].freed
    modifies found
    ensures result == Passing(found, tests) && OnlyAlive(found, result)
  {
    hide Passes;
    result := [];
    for k := 0 to partial.Length
      invariant result == Passing(found[..k], tests)
    {
      assert found[..k + 1][..k] == found[..k];
      if partial[k] != null {
        result := result + [partial[k]];
      }
    }
    assert found[..|found|] == found;
    PassingMembers(found, tests);
    assert forall k :: 0 <= k < |descarte| ==> descarte[k] in descarte && descarte[k] in found;
    FreeAll(descarte);
  }

  method FreeAll(descarte: seq<PersonObject>)
    requires Separate(descarte) && forall o <- descarte :: !o.freed
    modifies descarte
    ensures forall o <- descarte :: o.freed
  {
    for k := 0 to |descarte|
      invariant forall j :: 0 <= j < |descarte| ==> (descarte[j].freed <==> j < k)
    {
      descarte[k].Delete();
    }
  }
}
