/** Whole calls of savePerson, updateUser and deletePerson, exceptions included, and runs of them. */
module UserRuns {
  import opened Bytes
  import opened Decimals
  import opened Wrappers
  import opened MailLists
  import opened UserKeys
  import opened UserIndex
  import opened UserOps
  import opened UserUpdates
  import opened UserTyping

  /** getUserById: by way of the mail under the id. */
  function UserById(db: Db, id: int): Option<Person> {
    var key := Key(Uuid, IntText(id));
    if key in db && db[key].Text? && IsUser(db, db[key].text) then Some(User(db, db[key].text)) else None
  }

  /** Under the invariant the id index finds exactly the user with the id. */
  lemma UserByIdFinds(db: Db, id: int)
    requires RecordsAndKeysOk(db)
    ensures var r := UserById(db, id);
            && (r.Some? ==> IsUser(db, r.value.email) && User(db, r.value.email) == r.value && r.value.id == id)
            && (r.None? ==> forall m :: IsUser(db, m) ==> User(db, m).id != id)
            && (Key(Uuid, IntText(id)) in db ==> r.Some? && db[Key(Uuid, IntText(id))] == Text(r.value.email))
  {
    hide Key, RecordsOk, IndexOk, IsUser, User, IntText;
    if Key(Uuid, IntText(id)) in db {
      var m := OwnerOf(db, Uuid, IntText(id));
      EntryOf(db, Uuid, m);
      IntTextInjective(User(db, m).id, id);
      UserFacts(db, m);
    } else {
      forall m | IsUser(db, m)
        ensures User(db, m).id != id
      {
        EntryOf(db, Uuid, m);
      }
    }
  }

  lemma FoundById(db: Db, id: int, p: Person)
    requires RecordsOk(db) && UserById(db, id) == Some(p)
    ensures IsUser(db, p.email) && User(db, p.email) == p && Normal(p)
  {
    hide Key, RecordsOk, IsUser, User, Normal;
    UserFacts(db, db[Key(Uuid, IntText(id))].text);
  }

  // ---------- One call ----------

  /** What a caller gets; `Thrown` is BadImplementationException. */
  datatype Outcome = Done(id: int) | AlreadyExists | NotFound | Thrown

  /** The record savePerson stores for a profile. */
  function NewRecord(profile: Person, id: int): Person { FromJson(profile).(id := id, recommendations := 0) }

  /** The state behind the choice of the id, and the id: a generated one, or the forced one. */
  function ChooseId(db: Db, forceID: int): (Db, int) {
    if forceID != -1 then (db, forceID) else (WithNextId(db), Last(db) + 1)
  }

  function SavePerson(db: Db, profile: Person, forceID: int): (Db, Outcome) {
    if IsUser(db, FromJson(profile).email) then (db, AlreadyExists)
    else
      var (chosen, id) := ChooseId(db, forceID);
      (Saved(chosen, NewRecord(profile, id)), Done(id))
  }

  /** The record updateUser stores: mail, recommendations, and what the request leaves out come from the old one. */
  function UpdatedRecord(profile: Person, was: Person): Person { CompletedRecord(FromJson(profile), was) }

  function CompletedRecord(p: Person, was: Person): Person {
    var nowhere := p.latitude == 0.0 && p.longitude == 0.0;
    p.(email := was.email, recommendations := was.recommendations,
       password := if p.password == [] then was.password else p.password,
       latitude := if nowhere then was.latitude else p.latitude,
       longitude := if nowhere then was.longitude else p.longitude)
  }

  function UpdateUser(db: Db, profile: Person): (Db, Outcome) {
    match UserById(db, profile.id)
    case None => (db, NotFound)
    case Some(was) =>
      var (now, ok) := Updated(db, was, UpdatedRecord(profile, was));
      (now, if ok then Done(profile.id) else Thrown)
  }

  /** An exception on the way is reported as a user not found. */
  function DeletePerson(db: Db, id: int): (Db, Outcome) {
    match UserById(db, id)
    case None => (db, NotFound)
    case Some(p) =>
      var (now, ok) := Deleted(db, p);
      (now, if ok then Done(id) else NotFound)
  }

  datatype Call = Save(profile: Person, forceID: int) | Update(profile: Person) | Delete(id: int)

  function After(db: Db, call: Call): Db {
    match call
    case Save(profile, forceID) => SavePerson(db, profile, forceID).0
    case Update(profile) => UpdateUser(db, profile).0
    case Delete(id) => DeletePerson(db, id).0
  }

  // ---------- When a call keeps the agreement ----------

  predicate SaveFits(db: Db, profile: Person, forceID: int) {
    var p := FromJson(profile);
    || IsUser(db, p.email)
    || ((forceID == -1 || FreeId(db, forceID)) && FreeName(db, p) && SkillsFit(p.email, p.skills))
  }

  predicate UpdateFits(db: Db, was: Person, p: Person) {
    && DropsFit(db, Others(was.skills, p.skills), was.email)
    && NameFits(db, was, p)
    && SkillsFit(was.email, Others(p.skills, was.skills))
  }

  /** What can be asked before the call. */
  predicate Fits(db: Db, call: Call) {
    match call
    case Save(profile, forceID) => SaveFits(db, profile, forceID)
    case Update(profile) =>
      var found := UserById(db, profile.id);
      found.None? || UpdateFits(db, found.value, UpdatedRecord(profile, found.value))
    case Delete(id) =>
      var found := UserById(db, id);
      found.None? || DropsFit(db, found.value.skills, found.value.email)
  }

  lemma RecordFields(profile: Person, id: int)
    ensures var p := NewRecord(profile, id);
            && p.email == FromJson(profile).email && p.skills == FromJson(profile).skills && p.id == id
            && PartFor(Name, p) == PartFor(Name, FromJson(profile)) && Normal(p) && LowerAll(p.skills) == p.skills
  {
    hide Lower, LowerAll;
    FromJsonTwice(profile);
  }

  lemma UpdatedFields(profile: Person, was: Person)
    requires Normal(was)
    ensures var p := UpdatedRecord(profile, was);
            p.email == was.email && p.id == profile.id && Normal(p) && LowerAll(p.skills) == p.skills
  {
    hide Lower, LowerAll;
    FromJsonTwice(profile);
  }

  /** savePerson keeps the agreement exactly when the mail is taken, or the id and the name key are free and the
      skills fit. */
  lemma SavePersonInv(db: Db, profile: Person, forceID: int)
    requires Inv(db)
    ensures Inv(SavePerson(db, profile, forceID).0) <==> SaveFits(db, profile, forceID)
  {
    hide RecordsOk, IndexOk, LastOk, SkillsOk, Normal, IsUser, User, UsersMove, Saved, NewRecord, FromJson, WithNextId,
         Last, FreeId, PartFor, Key, SkillsFit, LowerAll;
    if !IsUser(db, FromJson(profile).email) {
      var (chosen, id) := ChooseId(db, forceID);
      NextIdInv(db);
      NextIdNames(db, FromJson(profile));
      RecordFields(profile, id);
      SavedInv(chosen, NewRecord(profile, id));
    }
  }

  lemma NextIdNames(db: Db, p: Person)
    requires Inv(db)
    ensures FreeName(WithNextId(db), p) <==> FreeName(db, p)
  {
    hide Key, WithNextId, PartFor, Untouched, Inv, IsUser, User;
    InvTyped(db);
    NextIdTyped(db);
    SameKey(db, WithNextId(db), Name, PartFor(Name, p));
  }

  /** updateUser keeps the agreement exactly when nobody has the id, or the drops, the name and the new skills fit. */
  lemma UpdateUserInv(db: Db, profile: Person)
    requires Inv(db)
    ensures Inv(UpdateUser(db, profile).0) <==> Fits(db, Update(profile))
  {
    hide RecordsOk, IndexOk, LastOk, SkillsOk, Normal, IsUser, User, Updated, UpdatedRecord, UserById, Key, DropsFit,
         NameFits, SkillsFit, Others;
    var found := UserById(db, profile.id);
    if found.Some? {
      UserByIdFinds(db, profile.id);
      FoundById(db, profile.id, found.value);
      UpdatedFields(profile, found.value);
      UpdatedInv(db, found.value, UpdatedRecord(profile, found.value));
    }
  }

  /** deletePerson keeps the agreement exactly when nobody has the id or no skill of the user is dropped too often. */
  lemma DeletePersonInv(db: Db, id: int)
    requires Inv(db)
    ensures Inv(DeletePerson(db, id).0) <==> Fits(db, Delete(id))
  {
    hide RecordsOk, IndexOk, LastOk, SkillsOk, Normal, IsUser, User, Deleted, UserById, Key, DropsFit;
    var found := UserById(db, id);
    if found.Some? {
      FoundById(db, id, found.value);
      DeletedInv(db, found.value);
    }
  }

  lemma CallInv(db: Db, call: Call)
    requires Inv(db)
    ensures Inv(After(db, call)) <==> Fits(db, call)
  {
    hide Inv, SaveFits, UpdateFits, DropsFit, UserById, SavePerson, UpdateUser, DeletePerson;
    match call
    case Save(profile, forceID) => SavePersonInv(db, profile, forceID);
    case Update(profile) => UpdateUserInv(db, profile);
    case Delete(id) => DeletePersonInv(db, id);
  }

  // ---------- What every call does to the records ----------

  lemma UsersMoveFrom(db: Db, mid: Db, now: Db, m: bytes, post: seq<Person>)
    requires |post| <= 1 && UsersMove(mid, now, m, post)
    requires forall n :: (IsUser(mid, n) <==> IsUser(db, n)) && (IsUser(db, n) ==> User(mid, n) == User(db, n))
    ensures UsersMove(db, now, m, post)
  {
    hide IsUser, User;
  }

  /** On any store: a mail that is taken is refused, else one record is put in. */
  lemma SavePersonUsers(db: Db, profile: Person, forceID: int)
    requires Typed(db)
    ensures var (now, outcome) := SavePerson(db, profile, forceID);
            var m := FromJson(profile).email;
            && Typed(now)
            && if IsUser(db, m) then now == db && outcome == AlreadyExists
               else outcome.Done? && UsersMove(db, now, m, [NewRecord(profile, outcome.id)])
  {
    hide Typed, IsUser, User, UsersMove, Saved, NewRecord, FromJson, WithNextId, Last, Normal, PartFor, LowerAll,
         Untouched;
    var m := FromJson(profile).email;
    if !IsUser(db, m) {
      var (chosen, id) := ChooseId(db, forceID);
      var p := NewRecord(profile, id);
      NextIdTyped(db);
      RecordFields(profile, id);
      TypedRecords(chosen);
      SavedUsers(chosen, p);
      SavedTyped(chosen, p);
      UsersMoveFrom(db, chosen, Saved(chosen, p), m, [p]);
    }
  }

  lemma TypedRecords(db: Db)
    requires Typed(db)
    ensures RecordsOk(db) && Texts(db, Uuid) && Texts(db, SkillIndex) && LastText(db)
  {
  }

  /** On any store: the record of the user found is replaced, or, half done, none is changed. */
  lemma UpdateUserUsers(db: Db, profile: Person, was: Person)
    requires Typed(db) && UserById(db, profile.id) == Some(was)
    ensures var (now, outcome) := UpdateUser(db, profile);
            && Typed(now)
            && (outcome == Done(profile.id) || outcome == Thrown)
            && (outcome.Done? ==> UsersMove(db, now, was.email, [UpdatedRecord(profile, was)]))
            && (outcome.Thrown? ==> UsersMove(db, now, was.email, [was]))
  {
    hide Typed, IsUser, User, UsersMove, Updated, UpdatedRecord, UserById, Normal, LowerAll;
    TypedRecords(db);
    FoundById(db, profile.id, was);
    UpdatedFields(profile, was);
    UpdatedUsers(db, was, UpdatedRecord(profile, was));
    UpdatedTyped(db, was, UpdatedRecord(profile, was));
  }

  /** On any store: the user found is taken out, or, half done, no record is changed. */
  lemma DeletePersonUsers(db: Db, id: int, p: Person)
    requires Typed(db) && UserById(db, id) == Some(p)
    ensures var (now, outcome) := DeletePerson(db, id);
            && Typed(now)
            && (outcome == Done(id) || outcome == NotFound)
            && (outcome.Done? ==> UsersMove(db, now, p.email, []))
            && (outcome.NotFound? ==> UsersMove(db, now, p.email, [p]))
  {
    hide Typed, IsUser, User, UsersMove, Deleted, UserById, Normal;
    TypedRecords(db);
    FoundById(db, id, p);
    DeletedUsers(db, p);
    DeletedTyped(db, p);
  }

  lemma CallTyped(db: Db, call: Call)
    requires Typed(db)
    ensures Typed(After(db, call))
  {
    hide Typed, UserById, SavePerson, UpdateUser, DeletePerson, IsUser, User, UsersMove, FromJson;
    match call
    case Save(profile, forceID) => SavePersonUsers(db, profile, forceID);
    case Update(profile) =>
      if UserById(db, profile.id).Some? {
        UpdateUserUsers(db, profile, UserById(db, profile.id).value);
      } else {
        NobodyFound(db, profile, profile.id);
      }
    case Delete(id) =>
      if UserById(db, id).Some? {
        DeletePersonUsers(db, id, UserById(db, id).value);
      } else {
        NobodyMissing(db, id);
      }
  }

  /** updateUser and deletePerson refuse an id nobody has. */
  lemma NobodyFound(db: Db, profile: Person, id: int)
    requires UserById(db, profile.id) == None
    ensures UpdateUser(db, profile) == (db, NotFound)
  {
    hide UserById, Updated, UpdatedRecord;
  }

  lemma NobodyMissing(db: Db, id: int)
    requires UserById(db, id) == None
    ensures DeletePerson(db, id) == (db, NotFound)
  {
    hide UserById, Deleted;
  }

  // ---------- Runs ----------

  function Run(db: Db, calls: seq<Call>): Db {
    if calls == [] then db else After(Run(db, calls[..|calls| - 1]), calls[|calls| - 1])
  }

  lemma EmptyInv()
    ensures Inv(map[]) && Typed(map[]) && forall m :: !IsUser(map[], m)
  {
    hide Key, RecordsOk, IndexOk, LastOk, ListsOk, ListOf, IsUser, Typed;
    var db: Db := map[];
    EmptyStore(db);
    EmptyIndex(db, Uuid);
    EmptyIndex(db, Name);
    EmptyIndex(db, Password);
    InvTyped(db);
  }

  lemma EmptyIndex(db: Db, kind: Kind)
    requires db == map[]
    ensures IndexOk(db, kind)
  {
    hide Key, PartFor, ValueFor;
  }

  lemma EmptyStore(db: Db)
    requires db == map[]
    ensures RecordsOk(db) && LastOk(db) && ListsOk(db)
    ensures forall m :: !IsUser(db, m)
    ensures forall skill :: ListOf(db, skill) == []
  {
    hide Key;
  }

  /** Every state that calls reach from the empty store is one on which every call is specified. */
  lemma {:induction false} RunTyped(calls: seq<Call>)
    ensures Typed(Run(map[], calls))
    decreases |calls|
  {
    hide Typed, After;
    if calls == [] {
      EmptyInv();
    } else {
      RunTyped(calls[..|calls| - 1]);
      CallTyped(Run(map[], calls[..|calls| - 1]), calls[|calls| - 1]);
    }
  }

  /** The indexes agree with the records after every call of the run. */
  ghost predicate AgreesThroughout(calls: seq<Call>) {
    forall k :: 0 <= k <= |calls| ==> Inv(Run(map[], calls[..k]))
  }

  predicate FitsThroughout(calls: seq<Call>) {
    forall k :: 0 <= k < |calls| ==> Fits(Run(map[], calls[..k]), calls[k])
  }

  lemma AgreesLast(calls: seq<Call>)
    requires calls != []
    ensures AgreesThroughout(calls) <==> AgreesThroughout(calls[..|calls| - 1]) && Inv(Run(map[], calls))
  {
    hide Inv, Run;
    var front := calls[..|calls| - 1];
    assert calls[..|calls|] == calls;
    forall k | 0 <= k <= |front|
      ensures front[..k] == calls[..k]
    {
    }
  }

  lemma FitsLast(calls: seq<Call>)
    requires calls != []
    ensures var front, last := calls[..|calls| - 1], calls[|calls| - 1];
            FitsThroughout(calls) <==> FitsThroughout(front) && Fits(Run(map[], front), last)
  {
    hide Fits, Run;
    var front := calls[..|calls| - 1];
    forall k | 0 <= k < |front|
      ensures front[..k] == calls[..k] && front[k] == calls[k]
    {
    }
  }

  /** For any calls whatever, with any refusals and exceptions between them: the indexes agree with the records
      after every one of them exactly when every one of them fits the state it meets. */
  lemma {:induction false} RunAgrees(calls: seq<Call>)
    ensures AgreesThroughout(calls) <==> FitsThroughout(calls)
    decreases |calls|
  {
    hide Inv, After, Fits, AgreesThroughout, FitsThroughout;
    if calls == [] {
      NoCalls();
    } else {
      var front, last := calls[..|calls| - 1], calls[|calls| - 1];
      RunAgrees(front);
      AgreesLast(calls);
      FitsLast(calls);
      if AgreesThroughout(front) {
        AgreesAtEnd(front);
        CallInv(Run(map[], front), last);
      }
    }
  }

  lemma NoCalls()
    ensures AgreesThroughout([]) && FitsThroughout([])
  {
    hide Inv;
    EmptyInv();
    var none: seq<Call> := [];
    assert none[..0] == none;
  }

  lemma AgreesAtEnd(calls: seq<Call>)
    requires AgreesThroughout(calls)
    ensures Inv(Run(map[], calls))
  {
    hide Inv, Run;
    assert calls[..|calls|] == calls;
  }

  // ---------- Runs of plain calls ----------

  /** Names without underscores, no skill twice. */
  predicate PlainProfile(profile: Person) {
    var p := FromJson(profile);
    PlainName(p) && Distinct(p.skills)
  }

  /** Plain profiles, generated ids, and mails without commas. */
  predicate Plain(call: Call) {
    match call
    case Save(profile, forceID) => PlainProfile(profile) && CommaFree(profile.email) && forceID == -1
    case Update(profile) => PlainProfile(profile)
    case Delete(_) => true
  }

  /** A user with an empty mail is saved with a skill, or given one. */
  predicate Harms(db: Db, call: Call) {
    match call
    case Save(profile, _) => !IsUser(db, []) && profile.email == [] && profile.skills != []
    case Update(profile) =>
      var found := UserById(db, profile.id);
      found.Some? && found.value.email == [] && profile.skills != []
    case Delete(_) => false
  }

  predicate PlainRecord(p: Person) { PlainName(p) && CommaFree(p.email) && Distinct(p.skills) }

  ghost predicate PlainStore(db: Db) { forall m :: IsUser(db, m) ==> PlainRecord(User(db, m)) }

  lemma PlainFreeName(db: Db, m: bytes, p: Person)
    requires RecordsOk(db) && IndexOk(db, Name) && PlainStore(db) && PlainName(p) && p.email == m
    requires Key(Name, PartFor(Name, p)) in db
    ensures IsUser(db, m) && PartFor(Name, User(db, m)) == PartFor(Name, p)
  {
    hide Key, RecordsOk, IndexOk, IsUser, User, PartFor, PlainName;
    var owner := OwnerOf(db, Name, PartFor(Name, p));
    UserFacts(db, owner);
    NamePartInjective(p, User(db, owner));
  }

  lemma DistinctFits(db: Db, skills: seq<bytes>, mail: bytes)
    requires Distinct(skills)
    ensures DropsFit(db, skills, mail)
  {
    hide ListOf, Without;
  }

  lemma {:induction false} OthersDistinct(a: seq<bytes>, b: seq<bytes>)
    requires Distinct(a)
    ensures Distinct(Others(a, b))
  {
    if a != [] {
      DistinctLast(a);
      OthersDistinct(a[..|a| - 1], b);
    }
  }

  lemma LowerComma(s: bytes)
    requires CommaFree(s)
    ensures CommaFree(Lower(s)) && (Lower(s) == [] <==> s == [])
  {
  }

  lemma PlainSaveFits(db: Db, profile: Person)
    requires Inv(db) && PlainStore(db) && PlainProfile(profile) && CommaFree(profile.email)
    ensures SaveFits(db, profile, -1) <==> !Harms(db, Save(profile, -1))
  {
    hide RecordsOk, IndexOk, LastOk, SkillsOk, PlainStore, IsUser, User, Key, PartFor, Lower, LowerAll, Distinct,
         PlainName;
    LowerComma(profile.email);
    var p := FromJson(profile);
    if !IsUser(db, p.email) && !FreeName(db, p) {
      PlainFreeName(db, p.email, p);
    }
  }

  lemma PlainUpdateFits(db: Db, profile: Person, was: Person)
    requires Inv(db) && PlainStore(db) && PlainProfile(profile) && UserById(db, profile.id) == Some(was)
    ensures UpdateFits(db, was, UpdatedRecord(profile, was)) <==> was.email != [] || profile.skills == []
  {
    hide RecordsOk, IndexOk, LastOk, SkillsOk, IsUser, User, Key, PartFor, UserById, Distinct, PlainName, DropsFit,
         Others, UpdatedRecord, Normal, LowerAll;
    var p := UpdatedRecord(profile, was);
    FoundById(db, profile.id, was);
    assert PlainRecord(was);
    UpdatedFields(profile, was);
    UpdatedPlain(profile, was);
    OthersDistinct(was.skills, p.skills);
    DistinctFits(db, Others(was.skills, p.skills), was.email);
    if !FreeName(db, p) {
      PlainFreeName(db, p.email, p);
    }
    OthersDistinct(p.skills, was.skills);
    NewSkills(db, was, p);
  }

  /** With an empty mail every skill is new. */
  lemma NewSkills(db: Db, was: Person, p: Person)
    requires SkillsOk(db) && IsUser(db, was.email) && User(db, was.email) == was && was.email == p.email
    ensures was.email == [] ==> Others(p.skills, was.skills) == p.skills
  {
    hide SkillsOk, IsUser, User, Others;
    if was.email == [] {
      if was.skills != [] {
        ListedMail(db, was.skills[0], was.email);
      }
      AllOthers(p.skills);
    }
  }

  lemma UpdatedPlain(profile: Person, was: Person)
    requires PlainProfile(profile) && PlainRecord(was)
    ensures PlainRecord(UpdatedRecord(profile, was))
    ensures UpdatedRecord(profile, was).skills == [] <==> profile.skills == []
  {
    hide Lower, LowerAll, Distinct;
  }

  lemma NewPlain(profile: Person, id: int)
    requires PlainProfile(profile) && CommaFree(profile.email)
    ensures PlainRecord(NewRecord(profile, id))
  {
    hide Lower, LowerAll, Distinct;
    LowerComma(profile.email);
  }

  lemma PlainFits(db: Db, call: Call)
    requires Inv(db) && PlainStore(db) && Plain(call)
    ensures Fits(db, call) <==> !Harms(db, call)
  {
    hide RecordsOk, IndexOk, LastOk, SkillsOk, PlainProfile, UserById, SaveFits, UpdateFits, DropsFit, IsUser, User,
         UpdatedRecord, Distinct, Normal;
    match call
    case Save(profile, forceID) => PlainSaveFits(db, profile);
    case Update(profile) =>
      if UserById(db, profile.id).Some? {
        PlainUpdateFits(db, profile, UserById(db, profile.id).value);
      }
    case Delete(id) =>
      if UserById(db, id).Some? {
        var p := UserById(db, id).value;
        FoundById(db, id, p);
        assert PlainRecord(p);
        DistinctFits(db, p.skills, p.email);
      }
  }

  lemma PlainMoves(db: Db, now: Db, m: bytes, post: seq<Person>)
    requires |post| <= 1 && PlainStore(db) && UsersMove(db, now, m, post)
    requires post != [] ==> PlainRecord(post[0])
    ensures PlainStore(now)
  {
    hide IsUser, User, PlainRecord;
  }

  lemma PlainAfter(db: Db, call: Call)
    requires Typed(db) && PlainStore(db) && Plain(call)
    ensures PlainStore(After(db, call))
  {
    hide Typed, PlainStore, PlainProfile, PlainRecord, UserById, SavePerson, UpdateUser, DeletePerson, IsUser, User,
         UsersMove, FromJson, NewRecord, UpdatedRecord, Normal;
    match call
    case Save(profile, forceID) =>
      SavePersonUsers(db, profile, forceID);
      var (now, outcome) := SavePerson(db, profile, forceID);
      if outcome.Done? && !IsUser(db, FromJson(profile).email) {
        NewPlain(profile, outcome.id);
        PlainMoves(db, now, FromJson(profile).email, [NewRecord(profile, outcome.id)]);
      }
    case Update(profile) =>
      if UserById(db, profile.id).Some? {
        var was := UserById(db, profile.id).value;
        UpdateUserUsers(db, profile, was);
        PlainFound(db, profile.id, was);
        UpdatedPlain(profile, was);
        PlainMoves(db, After(db, call), was.email,
                   if UpdateUser(db, profile).1.Done? then [UpdatedRecord(profile, was)] else [was]);
      } else {
        NobodyFound(db, profile, profile.id);
      }
    case Delete(id) =>
      if UserById(db, id).Some? {
        var p := UserById(db, id).value;
        DeletePersonUsers(db, id, p);
        PlainFound(db, id, p);
        PlainMoves(db, After(db, call), p.email, if DeletePerson(db, id).1.Done? then [] else [p]);
      } else {
        NobodyMissing(db, id);
      }
  }

  lemma PlainFound(db: Db, id: int, p: Person)
    requires Typed(db) && PlainStore(db) && UserById(db, id) == Some(p)
    ensures PlainRecord(p)
  {
    hide Typed, PlainRecord, UserById, IsUser, User, Normal;
    TypedRecords(db);
    FoundById(db, id, p);
  }

  lemma {:induction false} RunPlain(calls: seq<Call>)
    requires forall call <- calls :: Plain(call)
    ensures PlainStore(Run(map[], calls))
    decreases |calls|
  {
    hide PlainStore, After, Plain, Typed;
    if calls == [] {
      NothingStored();
    } else {
      RunPlain(calls[..|calls| - 1]);
      RunTyped(calls[..|calls| - 1]);
      PlainAfter(Run(map[], calls[..|calls| - 1]), calls[|calls| - 1]);
    }
  }

  lemma NothingStored()
    ensures PlainStore(map[])
  {
    hide PlainRecord, IsUser, User;
    EmptyInv();
  }

  predicate Harmless(calls: seq<Call>) {
    forall k :: 0 <= k < |calls| ==> !Harms(Run(map[], calls[..k]), calls[k])
  }

  /** For plain calls, in any order and with any refusals between them: the indexes agree with the records after
      every one of them exactly when none saves a user with an empty mail and a skill or gives one a skill. */
  lemma RunInv(calls: seq<Call>)
    requires forall call <- calls :: Plain(call)
    ensures AgreesThroughout(calls) <==> Harmless(calls)
  {
    hide Inv, Run, Plain, Fits, Harms, PlainStore;
    RunAgrees(calls);
    if AgreesThroughout(calls) {
      forall k | 0 <= k < |calls|
        ensures !Harms(Run(map[], calls[..k]), calls[k])
      {
        assert calls[k] in calls && forall call <- calls[..k] :: call in calls;
        RunPlain(calls[..k]);
        PlainFits(Run(map[], calls[..k]), calls[k]);
      }
    }
    if Harmless(calls) {
      HarmlessAgrees(calls);
    }
  }

  lemma {:induction false} HarmlessAgrees(calls: seq<Call>)
    requires (forall call <- calls :: Plain(call)) && Harmless(calls)
    ensures AgreesThroughout(calls)
    decreases |calls|
  {
    hide Inv, After, Plain, Fits, Harms, PlainStore, AgreesThroughout;
    if calls == [] {
      NoCalls();
    } else {
      var front, last := calls[..|calls| - 1], calls[|calls| - 1];
      forall k | 0 <= k < |front|
        ensures !Harms(Run(map[], front[..k]), front[k])
      {
        assert front[..k] == calls[..k] && front[k] == calls[k];
      }
      assert last in calls && forall call <- front :: call in calls;
      HarmlessAgrees(front);
      AgreesAtEnd(front);
      RunPlain(front);
      PlainFits(Run(map[], front), last);
      CallInv(Run(map[], front), last);
      AgreesLast(calls);
    }
  }

  // ---------- Runs in which no mail is empty ----------

  predicate HasMail(call: Call) { call.Save? ==> call.profile.email != [] }

  lemma {:induction false} NobodyWithoutMail(calls: seq<Call>)
    requires forall call <- calls :: HasMail(call)
    ensures !IsUser(Run(map[], calls), [])
    decreases |calls|
  {
    hide IsUser, User, After, HasMail, Typed;
    if calls == [] {
      EmptyInv();
    } else {
      NobodyWithoutMail(calls[..|calls| - 1]);
      RunTyped(calls[..|calls| - 1]);
      MailKept(Run(map[], calls[..|calls| - 1]), calls[|calls| - 1]);
    }
  }

  lemma MailKept(db: Db, call: Call)
    requires Typed(db) && !IsUser(db, []) && HasMail(call)
    ensures !IsUser(After(db, call), [])
  {
    hide Typed, UserById, SavePerson, UpdateUser, DeletePerson, IsUser, User, NewRecord, UpdatedRecord, Normal, Lower,
         LowerAll;
    TypedRecords(db);
    match call
    case Save(profile, forceID) => SavePersonUsers(db, profile, forceID);
    case Update(profile) =>
      if UserById(db, profile.id).Some? {
        FoundById(db, profile.id, UserById(db, profile.id).value);
        UpdateUserUsers(db, profile, UserById(db, profile.id).value);
      } else {
        NobodyFound(db, profile, profile.id);
      }
    case Delete(id) =>
      if UserById(db, id).Some? {
        FoundById(db, id, UserById(db, id).value);
        DeletePersonUsers(db, id, UserById(db, id).value);
      } else {
        NobodyMissing(db, id);
      }
  }

  /** So plain calls that never save an empty mail keep the agreement for good. */
  lemma RunKeeps(calls: seq<Call>)
    requires forall call <- calls :: Plain(call) && HasMail(call)
    ensures Inv(Run(map[], calls))
  {
    hide Inv, Run, Plain, IsUser, User, UserById, Typed, HasMail;
    forall k | 0 <= k < |calls|
      ensures !Harms(Run(map[], calls[..k]), calls[k])
    {
      assert calls[k] in calls && forall call <- calls[..k] :: call in calls;
      NobodyWithoutMail(calls[..k]);
      RunTyped(calls[..k]);
      NoHarm(Run(map[], calls[..k]), calls[k]);
    }
    HarmlessAgrees(calls);
    AgreesAtEnd(calls);
  }

  lemma NoHarm(db: Db, call: Call)
    requires Typed(db) && !IsUser(db, []) && HasMail(call)
    ensures !Harms(db, call)
  {
    hide Typed, UserById, IsUser, User, Normal;
    TypedRecords(db);
    if call.Update? && UserById(db, call.profile.id).Some? {
      FoundById(db, call.profile.id, UserById(db, call.profile.id).value);
    }
  }
}
